# A verified model of crawlab's synchronisation, scheduling, rendering and conversion code

This project models the parts of crawlab that rewrite, reconcile or convert data, in Dafny 4.11, and proves what they
guarantee. `dafny verify dfyconfig.toml` checks all of it.

The systems around the modelled code are state or parameters with small contracts: the file store and the local disk are
maps from paths to MD5 sums, in which any single call may fail; the cron table and the mongo collection are plain state; the
block cipher, the script engine, the values of template variables, the random numbers and the exit of a process are
parameters. The two template regular expressions, the key of a notification variable, hexadecimal text, decimal numbers
and cipher block chaining are written out.

| file | what it models |
|---|---|
| RemoteTree, FileIndex | the remote listing as a tree, its flattening, and the two path indexes of a synchronisation |
| LocalDisk | the disk under a synchronisation: its files, any call failing, writes cut short |
| RemoteToLocal | mirroring a remote directory onto the disk: delete pass, copy pass, recursion |
| LocalToRemote | mirroring a local directory into the store, from an index and a snapshot taken before the deletes |
| Dispatcher | the request loop with retries, as a state machine over all interleavings of handles, nested ones included |
| DirectoryListing | a directory tree rebuilt from a pre-order walk through a map of parent nodes |
| Scheduler | both schedulers: stored schedules, live cron entries, Enable, Disable and the update pass |
| TemplateParser | tags, then math expressions, each replaced by its first occurrence |
| Notification | variables of a notification template, replaced one after the other in the order of a map |
| CronRange | one field of a cron expression, compiled into a 64-bit mask |
| ResultStore | insertion of results with deduplication by hash |
| BsonDocs | comparison and object-id conversion of nested documents |
| Encryption, Hex | padding, cipher block chaining in place, hexadecimal text |
| Shuffle | the in-place Fisher-Yates shuffle |
| Daemon | the restarting process daemon and its signals |
| Filter | translation of a filter into a mongo query |
| Text, Sequences, Arithmetic, Wrappers | string replacement, concatenation, remainders and optional values, used by the others |

## Results that differ from what the code promises

Where a promise holds only under a condition, the condition is proved exact where that is possible, and a lemma or method
stands at an input where it fails.

- The local index erases every occurrence of the local root from a path, not only the leading one. The key is right exactly
  when the root does not occur again (`FileIndex.KeyKeepsRelativePath`). For a synchronisation to the disk this means that a
  stray local file can stay, and that a missing file can be taken for present and not be downloaded, without an error
  (`RemoteToLocal.RunWithRecurringRoot` runs into both). The disk ends as a mirror only if no stray file has, for each of the
  delete passes that meet it, a key among the remote paths, and every file of the root that the index calls up to date lies
  in its own place; that is enough as well, unless a file in a listed directory is mistaken twice, by the index of the whole
  and by that of its directory (`RemoteToLocal.MirrorsExactlyWhen`). That happens, too: such a file is never downloaded
  (`RemoteToLocal.RunMistakenTwice`). For a listing without directories the condition is exact
  (`RemoteToLocal.FlatMirrorsExactlyWhen`). For a synchronisation to the store the exact condition is one on the computed keys
  (`LocalToRemote.RunMirrorsExactlyWhen`); a first upload mirrors exactly when the root occurs in no relative path again
  (`LocalToRemote.FirstUploadMirrorsExactlyWhen`), and with the root /a the file /a/a/c goes to /r/c
  (`LocalToRemote.RecurringUpload`).
- A synchronisation to the store, with a local root that does not recur, mirrors the local directory exactly when no
  up-to-date file lies below a remote directory that the local index lacks and no remote file survives the delete pass under
  the path of a local directory (`LocalToRemote.MirrorsExactlyWhen`). The index knows only the directory that directly holds
  a file, so a file two directories deep can be deleted although it was up to date (`LocalToRemote.NestedFileIsLost`), and
  then comes and goes with each run (`LocalToRemote.Flickers`). A remote file with the path of a local .git directory stays
  (`LocalToRemote.ShadowingFileStays`).
- Every request gets exactly one reply unless the manager is closed meanwhile. Closing it does no harm exactly when no
  request, nested ones yet to be issued included, is left to take, or a single one with the loop already receiving
  (`Dispatcher.AnsweredExactlyWhen`). So a request with one nested request still to issue is stranded if the loop is about to
  test for the close, and answered if it is receiving (`Dispatcher.CloseBeforeNestedRequest`).
- The second scheduler's update never adds an entry, so it ends matched exactly when every enabled schedule had its entry
  before (`Scheduler.CollectOnlyUpdate`); a schedule enabled by an earlier process has none
  (`Scheduler.CollectOnlyLeavesWithout`). In both schedulers an entry id stored by an earlier process can be mistaken for the
  entry of another schedule if Enable comes before the first update (`Scheduler.StaleIdIsMistaken`): exactly when it is the
  next id to be handed out (`Scheduler.EnableMistakesExactlyWhen`). Disable silences a schedule exactly when no other entry
  fires it (`Scheduler.DisableSilencesExactlyWhen`): one that was enabled twice is fired until the next update
  (`Scheduler.EnabledTwiceIsFired`, `Scheduler.DisabledFallsSilent`).
- Each tag is replaced by the first occurrence of its text, which is the tag itself exactly when that text does not begin
  earlier in the template rewritten so far (`TemplateParser.LandOnOwnExactlyWhen`). A value that is a later tag is misplaced:
  {{a}}{{b}}, with {{b}} for a and x for b, becomes x{{b}} (`TemplateParser.MisplacedExample`). The replacement of N/A in
  scripts never applies, because the pattern admits no letter A (`TemplateParser.NothingToReplaceInScripts`).
- Notification rendering replaces one variable after the other, in the order of a map. In every order each step changes the
  variable's own places and no other, exactly when, with all other variables filled in, the key of each one occurs only where
  it stands (`Notification.EveryOrderLandsExactlyWhen`); then all orders give the simultaneous substitution
  (`Notification.EveryOrderIsSimultaneous`). That is so if no opening `${` is left but in variables without a value
  (`Notification.SafeHasOwnKeysOnly`), and for a single variable whatever its value (`Notification.OneKeyTakesAnyValue`). It is
  not for `${task:${spider:name}}${task:id}`, where two orders give two texts (`Notification.StrayDollarDependsOnOrder`).
- `bsonMEqual` is a partial order rather than an equality: an empty nested document, or a nil array, equals any scalar. It
  decides equality with a document exactly when nothing nested in it is empty (`BsonDocs.DecidesEqualityExactlyWhenSolid`).
- Denormalizing normalizes nested documents: an object id is left exactly when a nested document held one, or the text of
  one (`BsonDocs.DenormalizedHasId`, `BsonDocs.NestedIdIsLeft`). Normalizing first makes no difference to it exactly when no
  id was written in upper case (`BsonDocs.DenormalizeAfterNormalize`, `BsonDocs.UpperIdIsRewritten`).
- A filter keeps only the last condition of each key, so a range loses its lower bound (`Filter.LowerBoundIsLost`). "nc" is
  not the negation of "c": a text that has the value in another case only satisfies both (`Filter.NotContainsIsNoNegation`,
  `Filter.BothSelectAbc`).
- The comment above `getRange` describes fewer expressions than the code accepts: the model follows the code, where a star
  may be followed by hyphens, which are ignored, and a single number with a step reaches to the maximum.
- Stop does not prevent a launch that comes after it; the process launched then is the last one (`Daemon.NothingAfterStop`).
- unPadding looks only at the last byte; it is undone by padding exactly on properly padded text
  (`Encryption.UnPaddingRoundTrip`), and cuts other text short all the same (`Encryption.LastByteIsTrusted`).

## Model

| member | source | states |
|---|---|---|
| RemoteTree.GetFlattenRemoteFiles | fs/utils.go:79-89 | the loop and recursion produce the pre-order of the tree, each directory before what it holds |
| RemoteTree.FlattenHas | fs/utils.go:79-89 | an entry is flattened if and only if it is listed, or held by a listed directory at any depth |
| RemoteTree.FlattenIsDistinct | fs/utils.go:79-89 | in a listing whose siblings have distinct names, each entry is flattened once |
| RemoteTree.HeightDescends | fs/utils.go:79-89 | every directory of a listing has a lower subtree than the listing, so the nested synchronisations end |
| RemoteTree.PathsAreUnique | fs/utils.go:71-74 | in a listing whose siblings have distinct names no two entries share a path, so the remote index loses none |
| RemoteTree.SubListing | fs/seaweedfs_manager.go:592-599 | what a nested synchronisation lists is exactly the part of the whole listing below the directory |
| FileIndex.KeyKeepsRelativePath | fs/utils.go:49 | the key of a local file keeps its relative path if and only if the local root does not occur in it again |
| FileIndex.IndexLocal | fs/utils.go:48-61 | under the key of a file is the last file with that key, and under every other key a directory directly holding a file, without a checksum |
| FileIndex.IndexRemote | fs/utils.go:71-74 | the index has exactly the flattened entries, each under its path |
| FileIndex.ParentOfMember | fs/utils.go:53 | the parent of a member of a directory is that directory, of a name at the top the root, and of a bare name the dot |
| FileIndex.GitPatternMatchesWhen | fs/utils.go:12-19 | the pattern matches some part of a path if and only if ".git/" occurs in it, whatever the directory is called |
| LocalDisk.Disk.Download | fs/seaweedfs_manager.go:420-452 | a download puts the file in place; a failed one leaves the old file, none, or what was written so far, and touches nothing else |
| RemoteToLocal.DownloadFile | fs/seaweedfs_manager.go:308-319 | a download is attempted again after each failure, at most retryNum+1 times: it fails only after more than retryNum faults, and then has made all the attempts; every attempt but the last has failed |
| RemoteToLocal.MirrorIsDetermined | fs/seaweedfs_manager.go:551-624 | the two conditions proved of a synchronisation leave one possible disk |
| RemoteToLocal.PlaceFromSub | fs/seaweedfs_manager.go:592-599 | a nested synchronisation puts an entry in the same place as the whole one |
| RemoteToLocal.RemoveAbsent | fs/seaweedfs_manager.go:568-587 | the delete pass keeps exactly the files outside the root, those of .git directories, and those whose key is a remote path; it writes nothing if all stay |
| RemoteToLocal.IndexAnswers | fs/seaweedfs_manager.go:605-615 | the index says up to date exactly when the last local file with the key has the remote checksum |
| RemoteToLocal.SyncFile | fs/seaweedfs_manager.go:601-620 | a file entry is downloaded unless the index has it with an equal checksum, in at most retryNum+1 attempts; up to retryNum faults do not make it fail |
| RemoteToLocal.SyncDir | fs/seaweedfs_manager.go:591-599 | a directory entry is synchronised below its own place, by a request that is tried again after an error: up to retryNum faults do not make it fail; with a root that does not recur the part of the listing is mirrored if it is ok, and no harm is done if not |
| RemoteToLocal.RequestSync | fs/seaweedfs_manager.go:301-331 | the number of attempts, which is the number of times the directory itself is begun, is at most retryNum+1, exactly that if the request fails, and at most one more than the faults met: up to retryNum faults always end ok; with a root that does not recur the attempt that is ok leaves a mirror, files in place stay in place through all of them, and nothing else is touched but strays; without a fault the outcome is that of one attempt |
| RemoteToLocal.CopyPass | fs/seaweedfs_manager.go:589-621 | the loop over all entries, nested synchronisations and their repetitions included, leads from what the delete pass left to the outcome of a run, and with a root that does not recur to a mirror; a clean mirror is not written to |
| RemoteToLocal.SyncRemoteToLocal | fs/seaweedfs_manager.go:551-624 | if no call fails: every file the index does not call up to date is written, strays go unless every delete pass keeps them, .git files the remote lacks and everything outside stay; with roots that do not recur, and even if attempts at downloads and nested synchronisations failed, the result is a mirror, and a mirror is not written to; even with an error nothing outside changes; an error is reported only if the listing or a call to the disk failed |
| RemoteToLocal.MirrorsExactlyWhen | fs/seaweedfs_manager.go:551-624 | any run without a fault leaves a mirror only if no stray is kept by all delete passes, the files of the root that the index calls up to date lie in place, and no missing file is mistaken by all indexes; the first two are enough unless a file in a directory, which does not lie in place and stay there, is mistaken by two indexes |
| RemoteToLocal.FooledStaysMissing | fs/seaweedfs_manager.go:601-620 | a missing file for which every index above it has another one is never downloaded |
| RemoteToLocal.FlatMirrorsExactlyWhen | fs/seaweedfs_manager.go:551-624 | for a listing without directories a run leaves a mirror if and only if no stray has a remote path as its key and every file called up to date lies in its own place, which the delete pass keeps |
| RemoteToLocal.CleanRunsMirror | fs/seaweedfs_manager.go:551-624 | if the local root recurs in no path, every outcome of a run without a fault is a mirror, however deep the listing |
| RemoteToLocal.CleanMirrorIsCurrent | fs/seaweedfs_manager.go:568-615 | in a mirror with such a root all files stay and the index calls all remote files up to date |
| RemoteToLocal.RunWithRecurringRoot | fs/utils.go:49 | a run on a disk whose one file lies below the whole root a second time: the file stays, and if it has the content of the remote file, that is not downloaded |
| RemoteToLocal.RecurringExample | fs/utils.go:49 | such are the root /a, the local file /a/a/c and the remote file /r/c |
| RemoteToLocal.RunMistakenTwice | fs/utils.go:49 | a run in which the index of the root and that of a directory both take another file for the missing one, though no stray is kept: it is not downloaded, and no error reported |
| RemoteToLocal.MistakenExample | fs/utils.go:49 | such are the root /a, the local files /a/a/.git/c and /a/.git/a/.git/c, and the remote file /r/.git/c |
| LocalToRemote.RunMirrorsExactlyWhen | fs/seaweedfs_manager.go:486-549 | for every local root and store: one run mirrors the local directory if and only if each wanted path is uploaded with its checksum, or is up to date and survives, and no other path outside .git directories is uploaded or survives |
| LocalToRemote.MirrorsExactlyWhen | fs/seaweedfs_manager.go:486-549 | if the root does not recur, that is so if and only if nothing up to date is swept away and nothing is shadowed |
| LocalToRemote.QuietExactlyWhen | fs/seaweedfs_manager.go:486-549 | one run leads to a mirror on which the next one does nothing if and only if every directory above a wanted file directly holds a file and nothing is shadowed |
| LocalToRemote.Flickers | fs/seaweedfs_manager.go:501-546 | below a directory that holds no file itself, a wanted file is up to date after a run if and only if it was not before |
| LocalToRemote.NestedFileIsLost | fs/seaweedfs_manager.go:501-518 | an up-to-date mirror whose only file is two directories deep loses it in one run |
| LocalToRemote.ShadowingFileStays | fs/seaweedfs_manager.go:501-528 | a remote file with the path of a local .git directory survives a run that has nothing else to do, so there is no mirror |
| LocalToRemote.DeletesKeepValid | fs/seaweedfs_manager.go:501-518 | after the delete pass every remaining file and directory still has the directories above it |
| LocalToRemote.UploadKeepsValid | fs/seaweedfs_manager.go:533-545 | so it has after an upload, which creates missing directories |
| LocalToRemote.Filer.Send | fs/seaweedfs_manager.go:308-319 | a delete or upload is attempted again after each failure: the store changes once if an attempt succeeds and not at all otherwise; a request that the filer takes fails only after retryNum+1 faults, and each attempt but the last was one |
| LocalToRemote.DeletedIsAfterDeletes | fs/seaweedfs_manager.go:501-518 | deleting entry by entry over a snapshot removes exactly the entries the index lacks and all below the directories it lacks |
| LocalToRemote.DueIsOutdated | fs/seaweedfs_manager.go:520-546 | if the files keep their relative paths, the upload pass sends exactly the wanted files that the snapshot did not have up to date |
| LocalToRemote.NothingRefused | fs/seaweedfs_manager.go:533-545 | where no path is a file on one side and a directory on the other, the filer refuses none of the uploads |
| LocalToRemote.SnapshotAnswers | fs/seaweedfs_manager.go:530-544 | the index of the snapshot says up to date exactly when the store did before the deletes |
| LocalToRemote.DeletePass | fs/seaweedfs_manager.go:501-518 | the loop leaves the survivors of the delete pass and sends no request exactly when every remote path is indexed |
| LocalToRemote.UploadDifferent | fs/seaweedfs_manager.go:520-546 | the loop leaves the store with the due uploads done, of two files with one key the later, and sends no request when none is due |
| LocalToRemote.SyncLocalToRemote | fs/seaweedfs_manager.go:486-549 | whatever the local root, an error-free run leads to the store described by the keys of the listed files, and sends no request exactly when there is nothing to do; a failed listing sends none; where no path is a file on one side and a directory on the other, an error is reported only if the listing or the disk failed or more than retryNum attempts at requests did |
| LocalToRemote.CleanRun | fs/seaweedfs_manager.go:486-549 | with a root that does not recur this is the store described by the relative paths of the local files, whatever their order |
| LocalToRemote.FirstUploadMirrorsExactlyWhen | fs/utils.go:49 | a run into an empty remote directory mirrors the local one if and only if the local root recurs in no relative path outside .git directories |
| LocalToRemote.RecurringUpload | fs/utils.go:49 | with the root /a, the file /a/a/c is uploaded to /r/c |
| Dispatcher.StepKeepsInv | fs/seaweedfs_manager.go:301-331 | every step of loop, workers and requesters keeps phases, owners, channel and replies consistent |
| Dispatcher.NeverStuck | fs/seaweedfs_manager.go:301-331 | while the loop has not returned and a request is unanswered, some step is possible: no deadlock between nested requests |
| Dispatcher.StuckExactlyWhenPending | fs/seaweedfs_manager.go:301-331 | where nothing can move, all requests are answered if and only if all were taken from the channel; if not, the loop has returned |
| Dispatcher.UnansweredExactlyWhenStranded | fs/seaweedfs_manager.go:326-331 | there, a request is unanswered if and only if a chain of waiting leads from it to one that was never taken |
| Dispatcher.StepDescends | fs/seaweedfs_manager.go:301-331 | every step uses up some of a measure over requests, attempts and nested requests |
| Dispatcher.AnswerIs | fs/seaweedfs_manager.go:308-319 | stopping at the first success or the last attempt gives the first success, or else the last error |
| Dispatcher.ExactlyOneReply | fs/seaweedfs_manager.go:301-331 | in every interleaving: at most one reply for each request, always its first success or last error, after at most retryNum+1 attempts; exactly one once nothing can move and the loop has not returned; runs are bounded |
| Dispatcher.StepTakes | fs/seaweedfs_manager.go:301-331 | the number of requests still to be taken, nested ones up to the first success included, falls by one with each taking and changes with nothing else |
| Dispatcher.AnsweredExactlyWhen | fs/seaweedfs_manager.go:302-306 | however a run goes on after Close, all requests are answered in the end if and only if none was left to take, or one with the loop already receiving |
| Dispatcher.CloseBeforeNestedRequest | fs/seaweedfs_manager.go:302-306 | with one nested request still to issue, every run after Close ends with all answered if and only if the loop is already receiving |
| DirectoryListing.WalkIsPreOrder | core/fs/service_v2.go:31-32 | no path visited by the walk extends or repeats the path of a later visit |
| DirectoryListing.KidsArePruned | core/fs/service_v2.go:54-67 | the visits that become children of a directory are, in walk order, the children that pruning keeps |
| DirectoryListing.PruneHasExactlyWhen | core/fs/service_v2.go:54-59 | what pruning keeps: there is a way down by given names to a file or directory if and only if there was one and none of the names is skipped |
| DirectoryListing.PruneKeepsOrder | core/fs/service_v2.go:65-67 | siblings that are kept stay in the order of the walk |
| DirectoryListing.KidsBelowChild | core/fs/service_v2.go:65-67 | below a child only its own walk contributes, although the walk visits all siblings |
| DirectoryListing.OnVisit | core/fs/service_v2.go:32-70 | one call of the callback extends the shared nodes and the map of directories by exactly one visit, or by nothing for a skipped name |
| DirectoryListing.TreeBuilt | core/fs/service_v2.go:42-70 | the node built for a kept tree is its pruned form, with every surviving node once and in order |
| DirectoryListing.List | core/fs/service_v2.go:20-79 | without an error the result is the recursive prune of the directory, though the walk goes into skipped directories; nothing if the directory itself is skipped or no directory |
| Scheduler.EnablingKeepsSafe | core/schedule/service.go:90-102 | Enable, even when the save fails, takes no entry from another schedule |
| Scheduler.DisablingKeepsSafe | core/schedule/service.go:104-113 | Disable takes away only its own schedule's entry, if the copy it is given holds no other's |
| Scheduler.UpdatingKeepsSafe | core/schedule/service.go:131-160 | an update keeps every schedule that owns its entry in possession of it |
| Scheduler.CompletePassMatches | core/schedule/service.go:131-160 | after a pass in which every spec parsed and every save worked, live entries and enabled schedules correspond one to one if and only if no stored id was another's entry |
| Scheduler.OwnedPassMatches | core/schedule/service.go:131-160 | from owned entries, any pass ends matched |
| Scheduler.SchedulerRuns | core/schedule/service.go:90-179 | whole runs from an empty cron table and a first complete pass: no schedule ever stores another's entry, every complete pass ends matched, and unless a save failed in Disable every enabled schedule owns its entry at all times |
| Scheduler.NoSharedIds | core/schedule/service.go:94-99 | schedules that own their entries share no id |
| Scheduler.OwnedUntilDisabled | core/schedule/service_v2.go:90-163 | in both versions a schedule keeps its entry over any run until it is disabled |
| Scheduler.EnabledKeepsEntry | core/schedule/service_v2.go:90-163 | in both versions, when no entry id of an earlier process is stored, a schedule once enabled fires from its own entry over any run until it is disabled |
| Scheduler.DisableSilencesExactlyWhen | core/schedule/service_v2.go:104-113 | Disable of the current copy leaves the schedule not enabled and without an entry that fires it if and only if it is saved and no other live entry fires it |
| Scheduler.DisabledStaysSilent | core/schedule/service_v2.go:90-163 | in both versions, after such a Disable no live entry fires the schedule over any run until it is enabled again |
| Scheduler.DisabledFallsSilent | core/schedule/service_v2.go:90-163 | in both versions, after any saved Disable no live entry fires the schedule from the first update on until it is enabled again |
| Scheduler.EnabledTwiceIsFired | core/schedule/service_v2.go:90-113 | enabled twice and disabled once, a schedule is still fired by its first entry until then |
| Scheduler.CollectOnlyUpdate | core/schedule/service_v2.go:131-163 | the update of version 2 stores and adds nothing, keeps exactly the named entries, and ends matched if and only if every enabled schedule owned its entry |
| Scheduler.StaleIdIsMistaken | core/schedule/service.go:142-152 | an Enable before the first pass can take the id another schedule has stored, which then stays without an entry |
| Scheduler.EnableMistakesExactlyWhen | core/schedule/service.go:90-102 | Enable makes the stored id of another enabled schedule name the new entry if and only if that id is the next one to be handed out |
| Scheduler.CollectOnlyLeavesWithout | core/schedule/service_v2.go:131-163 | the update of version 2 leaves a schedule that an earlier process enabled without an entry |
| Scheduler.Service.Enable | core/schedule/service.go:90-102 | if the spec does not parse, nothing changes; else the next entry id fires the schedule and all other entries stay, and if the save works, the schedule is stored as enabled with that id, else the store stays; no other stored schedule changes; it succeeds exactly when the spec parses and the save works |
| Scheduler.Service.Disable | core/schedule/service.go:104-113 | the entry of the copy is gone whether or not the save works, and no other; if the save works, the schedule is stored as not enabled with entry id -1, else the store stays; no other stored schedule changes; it succeeds exactly when the save works |
| Scheduler.Service.Fetch | core/schedule/service.go:170-179 | the enabled schedules, each once |
| Scheduler.Service.EnableMissing | core/schedule/service.go:141-152 | the first loop marks exactly the entries that an enabled schedule names and adds one for each unrecognised schedule whose spec parses; in version 2 it adds none |
| Scheduler.Service.RemoveUnmarked | core/schedule/service.go:154-159 | the second loop removes exactly the unmarked entries |
| Scheduler.Service.Update | core/schedule/service.go:131-160 | the pass as a whole; nothing if the schedules cannot be fetched; a complete pass if every spec parses and no call fails |
| TemplateParser.FindAllIsOrdered | template-parser/general_parser.go:30-31 | matches are in order, apart, and matches of the pattern |
| TemplateParser.FindAllExactlyWhen | template-parser/general_parser.go:30-31 | the matches found are the one sequence in which each is the first after the one before it and none follows the last |
| TemplateParser.NoMatchIsMissed | template-parser/general_parser.go:30-31 | wherever the pattern matches, some match found is in the way |
| TemplateParser.TagMatchExactlyWhen | template-parser/general_parser.go:158-168 | a tag matches if and only if it is two braces, spaces, a word, which is the group, spaces and two braces |
| TemplateParser.TagCharsAre | template-parser/general_parser.go:160-161 | the characters of the word, one by one |
| TemplateParser.MathMatchExactlyWhen | template-parser/general_parser.go:175-189 | a math expression matches if and only if it is a brace and a hash sign, characters of the class, at least one, and the reverse; its group has no leading spaces unless it is a single one |
| TemplateParser.MathCharsAre | template-parser/general_parser.go:177-180 | the characters of the class, one by one |
| TemplateParser.TagIsFilled | template-parser/general_parser.go:28-110 | a tag with plain text around it is found wherever it stands, and rendering replaces it, and nothing else, by the string, the JSON text, or N/A for a missing value |
| TemplateParser.FirstIsOwn | template-parser/general_parser.go:106 | after text without the opening marker, the first occurrence of a matched string is the match itself |
| TemplateParser.ClearSpliceClearFronts | template-parser/general_parser.go:75-107 | if the positional result has no opening marker, no text in front of a tag ever has one |
| TemplateParser.LandOnOwnExactlyWhen | template-parser/general_parser.go:75-107 | every replacement of the chain lands on its own match if and only if no match's text begins earlier in the text rewritten so far |
| TemplateParser.ClearFrontsOwnFirst | template-parser/general_parser.go:75-107 | that is so if no text in front of a match has the opening marker |
| TemplateParser.SequentialIsSplice | template-parser/general_parser.go:75-107 | then replacing first occurrences one after the other is replacing every match where it stands |
| TemplateParser.TagsSucceedWhen | template-parser/general_parser.go:75-109 | the tag pass gives a text if and only if every lookup does and there are no more placeholders than matches |
| TemplateParser.FirstFailure | template-parser/general_parser.go:75-109 | otherwise the first placeholder that fails decides: its own error, or the panic past the last match, before which only an unknown variable is reported |
| TemplateParser.MathsSucceedWhen | template-parser/general_parser.go:125-149 | the math pass gives a text if and only if every script runs |
| TemplateParser.RenderIsPositional | template-parser/general_parser.go:39-53 | both passes: if no match's text begins earlier, every tag and then every math expression is replaced where it stands |
| TemplateParser.ClearRenderIsPositional | template-parser/general_parser.go:39-53 | it is enough that neither the filled template nor the evaluated text has an opening marker in it |
| TemplateParser.MathIsPositional | template-parser/general_parser.go:112-150 | the math pass alone |
| TemplateParser.SecondParseSucceedsWhen | template-parser/general_parser.go:28-37 | after a second Parse the tag pass succeeds if and only if the first template had no tag and every lookup is good |
| TemplateParser.NothingToReplaceInScripts | template-parser/general_parser.go:130-131 | no script of a matched expression contains N/A |
| TemplateParser.ValueWithTagIsMisplaced | template-parser/general_parser.go:105-106 | of two adjacent tags, the first with the second as its value, rendering gives the value of the second and then its tag, where the template stands for the reverse |
| TemplateParser.MisplacedExample | template-parser/general_parser.go:105-106 | {{a}}{{b}} is rendered as x{{b}} instead of {{b}}x |
| TemplateParser.GeneralParser.Parse | template-parser/general_parser.go:28-37 | the placeholders are appended to those of earlier templates |
| TemplateParser.GeneralParser.RenderTagContent | template-parser/general_parser.go:55-110 | the loop over all placeholders, with its errors and the panic past the last match |
| TemplateParser.GeneralParser.RenderMathContent | template-parser/general_parser.go:112-150 | the loop over the math expressions of the input |
| TemplateParser.GeneralParser.Render | template-parser/general_parser.go:39-53 | the two passes in turn |
| Notification.FlatPieces | core/notification/service_v2.go:332-336 | the leftmost matches and the characters between make up the template |
| Notification.KeysApart | core/entity/notification_variable.go:10-12 | a text that starts with the key of one variable starts with the key of no other |
| Notification.MapKeysApart | core/notification/service_v2.go:347 | the key of the map determines the variable |
| Notification.ReplacesOwnExactlyWhen | core/notification/service_v2.go:102-305 | ReplaceAll on the text replaces exactly the variable's own places if and only if no key of it begins elsewhere, or the key is its own value |
| Notification.NoStrayExactlyWhen | core/notification/service_v2.go:102-305 | in terms of positions: the key occurs only where the variable stands |
| Notification.LandOnOwnExactlyWhen | core/notification/service_v2.go:102-307 | every step of the chain gives the text with the variable's own places replaced if and only if none of them finds a key astray |
| Notification.EveryOrderLandsExactlyWhen | core/notification/service_v2.go:338-356 | that is so in every order if and only if, with all other variables filled in, the key of each one occurs only where it stands |
| Notification.EveryOrderIsSimultaneous | core/notification/service_v2.go:102-307 | then every order gives the simultaneous substitution |
| Notification.SafeExactlyWhen | core/notification/service_v2.go:102-307 | a template whose variables all have values is safe if and only if no ${ occurs in the text with all of them replaced |
| Notification.SafeHasOwnKeysOnly | core/notification/service_v2.go:102-307 | in a safe template the keys occur only where their variables stand, in the sense needed for every order |
| Notification.NoDollarIsSafe | core/notification/service_v2.go:102-307 | a template is safe if the dollar sign opens variables only and no value contains one |
| Notification.ChainIsSimultaneous | core/notification/service_v2.go:102-307 | if no step of the chain finds a key astray, it is the simultaneous substitution |
| Notification.OneKeyTakesAnyValue | core/notification/service_v2.go:102-307 | a template that is one key takes any value, safe or not |
| Notification.ReplaceVariable | core/notification/service_v2.go:105-304 | known names are replaced, unknown ones left, a missing entity gives N/A, and only a missing alert panics |
| Notification.KnownNamesAreWords | core/notification/service_v2.go:102-305 | every category and name the service knows makes a variable that the regular expression finds |
| Notification.FillingIs | core/notification/service_v2.go:102-305 | what stands for a variable: N/A for a missing entity whatever the name, the field for a known name and for any name of a metric, and else the key itself; the panic is for a known name of a missing alert and nothing else |
| Notification.VariableIsShown | core/notification/service_v2.go:80-100 | the key of a variable in plain text is found as that variable, and rendering replaces it, and nothing else, by this |
| Notification.GeContentWithVariables | core/notification/service_v2.go:102-307 | the loop panics if and only if a variable does, and else is the chain of replacements |
| Notification.CollectVariables | core/notification/service_v2.go:338-351 | the map holds exactly the variables of the template, each under its key |
| Notification.ParseTemplateVariables | core/notification/service_v2.go:331-359 | the variables of the template, each once, in some order |
| Notification.Render | core/notification/service_v2.go:80-100 | a panic, or the chain of replacements in some order of the variables; the simultaneous substitution, unknown names left as they are, if no step in this order finds a key astray, which holds for every order under the exact condition above |
| Notification.StrayDollarDependsOnOrder | core/notification/service_v2.go:338-356 | the two orders of the two variables of one template give different results |
| CronRange.JoinSplit | core/utils/cron.go:35-36 | joining the pieces of a split gives the text back |
| CronRange.SplitJoin | core/utils/cron.go:35-36 | splitting joined pieces gives the pieces back |
| CronRange.AtoiOfDecimal | core/utils/cron.go:111-121 | a printed number is read as itself |
| CronRange.AtoiOfSigned | core/utils/cron.go:111-121 | with a sign it is read as that number or its negative |
| CronRange.AtoiOfOthers | core/utils/cron.go:111-121 | a text with any other character, and a sign alone, is no number |
| CronRange.NoPartIsNegative | core/utils/cron.go:36 | a part of a range, which has no hyphen, is no negative number |
| CronRange.FillOne | core/utils/cron.go:133-135 | one round of the loop adds the bits up to the next value in step and no other |
| CronRange.GetBits | core/utils/cron.go:124-137 | bit k is set if and only if k is in the range and in step with its start, by shifts and by the loop alike, and the loop ends |
| CronRange.GetRange | core/utils/cron.go:32-98 | it fails exactly as the meaning of the expression does, with its error, and else gives the mask of its range; what that is for each form follows |
| CronRange.TextOfParts | core/utils/cron.go:35-37 | every text is an expression of the grammar |
| CronRange.PartsOfText | core/utils/cron.go:35-37 | an expression is read back from its text |
| CronRange.MaskIsInsideBounds | core/utils/cron.go:83-97 | a mask has a value bit, none outside the bounds, and the star bit exactly for a star or question mark with step 1 |
| CronRange.OneMask | core/utils/cron.go:140-142 | a range has one mask, so all(r) is getRange("*", r) |
| CronRange.All | core/utils/cron.go:140-142 | the mask denotes the range of a star |
| CronRange.NumberAlone | core/utils/cron.go:52-53 | a number or name sets its own bit alone, or is refused as below the minimum or above the maximum |
| CronRange.SpanAlone | core/utils/cron.go:54-58 | low-high sets the bits from low to high, or is refused as out of bounds or in the wrong order |
| CronRange.StarAlone | core/utils/cron.go:42-45 | a star or question mark sets all bits within the bounds and bit 63 |
| CronRange.StarWithStep | core/utils/cron.go:64-79 | with a step, every s-th bit from the minimum, and bit 63 if the step is 1; the step 0 is refused |
| CronRange.Refused | core/utils/cron.go:46-82 | what is wrong is reported from left to right: a first value that is neither number nor name, more than one hyphen, such a second value, more than one slash, a step that is no number, a negative one |
| CronRange.NumberIsItself | core/utils/cron.go:100-108 | a number in decimal is read as itself, and not taken for a name |
| CronRange.NamesAreRead | core/utils/cron.go:100-108 | the names of the months are 1 to 12 and those of the days 0 to 6, in this order and in any case |
| CronRange.FieldsCover | core/utils/cron.go:144-173 | the bounds of the six fields: 60 seconds and minutes, 24 hours, days 1 to 31, months 1 to 12, 7 days of the week |
| CronRange.SpanWithStep | core/utils/cron.go:54-79 | low-high/s sets the bits of every s-th value from low to high; otherwise the error for an end out of bounds, ends in the wrong order, or the step 0 |
| CronRange.NumberWithStep | core/utils/cron.go:73-76 | value/s sets the bits of every s-th value from there to the maximum; otherwise the error for a value below the minimum or beyond the maximum, or the step 0 |
| CronRange.FieldsAreProper | core/utils/cron.go:144-173 | the six fields leave the star bit free, and their names are within bounds and no numbers |
| ResultStore.ServiceMongo.InsertDeduplicated | core/result/service_mongo.go:45-68 | a document is hashed and put; an error, which is one of the hash or of the database, leaves the collection unchanged |
| ResultStore.ServiceMongo.HashesAgreeExactlyWhen | core/utils/result.go:8-23 | two results have the same hash if and only if they agree on every key, a missing field counting as nil |
| ResultStore.ServiceMongo.InsertAllDeduplicated | core/result/service_mongo.go:43-69 | every round sends the document as it is then, with its hash; an error leaves exactly the documents before it applied |
| ResultStore.ServiceMongo.SentIs | core/result/service_mongo.go:44-49 | even if a batch holds the same document twice, each round sends that document with its one hash, unless the hash itself is a hashed field |
| ResultStore.ServiceMongo.IgnoreStoresFirstOnes | core/result/service_mongo.go:57-68 | a result is stored if and only if the collection has not its hash and no earlier one of the batch agrees with it on every key |
| ResultStore.ServiceMongo.OverwriteStoresLast | core/result/service_mongo.go:52-56 | of the results that agree on every key, the last of the batch is the one stored under their hash |
| ResultStore.ServiceMongo.Insert | core/result/service_mongo.go:42-74 | the same, or without deduplication all documents appended; if different key fields have different hashes, ignoring leaves the collection as it was, with just those results appended whose hash it has not and that agree with no earlier one of the batch on every key |
| ResultStore.BatchKeepsUnique | core/result/service_mongo.go:42-74 | if each hash is carried by at most one document, it stays so |
| ResultStore.BatchAddsNewHashes | core/result/service_mongo.go:42-74 | the collection grows by the number of new hashes |
| ResultStore.RunsKeepUnique | core/result/service_mongo.go:42-74 | both over any sequence of batches, each with the setting of its time |
| ResultStore.IgnoreKeepsFirst | core/result/service_mongo.go:57-68 | ignoring keeps the first document of each hash and the stored ones in place |
| ResultStore.OverwriteKeepsLast | core/result/service_mongo.go:52-56 | overwriting keeps the last document of each hash |
| ResultStore.RunIsOneBatch | core/result/service_mongo.go:42-74 | a run of batches with one setting is one long batch |
| ResultStore.RunKeepsFirst | core/result/service_mongo.go:57-68 | over any run without overwriting the first document of each hash stays, and what was stored stays where it is |
| ResultStore.RunKeepsLast | core/result/service_mongo.go:52-56 | over any run that overwrites, the last document of each hash wins |
| ResultStore.RepeatIsIgnored | core/result/service_mongo.go:57-62 | documents whose hashes are all known change nothing when ignored |
| BsonDocs.BsonMEqual | core/utils/bson.go:16-85 | the loop over all keys decides the comparison of the documents |
| BsonDocs.Transitive | core/utils/bson.go:16-85 | the comparison is transitive |
| BsonDocs.Antisymmetric | core/utils/bson.go:16-85 | it holds both ways round if and only if the documents are identical |
| BsonDocs.DecidesEqualityExactlyWhenSolid | core/utils/bson.go:16-85 | it decides equality with a document if and only if no nested document is empty and no array nil |
| BsonDocs.EmptyEqualsScalar | core/utils/bson.go:70-73 | an empty nested document equals a number, which does not equal it |
| BsonDocs.NormalizeBsonMObjectId | core/utils/bson.go:87-100 | the map written key by key becomes the document normalized at every depth |
| BsonDocs.NormalizedExactlyWhen | core/utils/bson.go:87-100 | a normalized document has no text of an object id at any depth, and a document is its own normal form if and only if it has none |
| BsonDocs.DenormalizeBsonMObjectId | core/utils/bson.go:102-112 | the map written key by key has its own ids as text and nested documents normalized |
| BsonDocs.IdFromItsText | core/utils/bson.go:91-93 | the text of an object id is read as that id |
| BsonDocs.NormalizeIsIdempotent | core/utils/bson.go:87-100 | normalizing twice is normalizing once, at every depth |
| BsonDocs.NormalizeAfterDenormalize | core/utils/bson.go:87-112 | normalizing a denormalized document gives what normalizing the document itself gives |
| BsonDocs.DenormalizeAfterNormalize | core/utils/bson.go:87-112 | denormalizing a normalized document gives what denormalizing the document itself gives if and only if no id of the document was written in upper case |
| BsonDocs.UpperIdIsRewritten | core/utils/bson.go:87-112 | 24 letters A stay as they are if denormalized, and not if normalized first |
| BsonDocs.DenormalizedHasId | core/utils/bson.go:102-112 | an object id is left if and only if a nested document held one or the text of one |
| BsonDocs.NestedIdIsLeft | core/utils/bson.go:107-109 | the id in a nested document is left as it is |
| Encryption.PaddingRoundTrip | core/utils/encrypt.go:40-50 | for block sizes 1 to 255 padding gives whole blocks and can be taken off |
| Encryption.UnPaddingRoundTrip | core/utils/encrypt.go:46-50 | unPadding is undone by padding if and only if the text was properly padded |
| Encryption.LastByteIsTrusted | core/utils/encrypt.go:46-50 | of fifteen zeros and a two, two bytes are cut off |
| Encryption.CbcRoundTrip | core/utils/encrypt.go:60-75 | chaining with any permutation of the blocks can be undone |
| Encryption.CbcBlocks | core/utils/encrypt.go:60-61 | each block of the ciphertext is the encryption of the block of the text mixed with the block of the ciphertext before it, the first with the initialization vector |
| Encryption.XorBit | core/utils/encrypt.go:60-61 | mixing sets a bit if and only if it is set in one of the two |
| Encryption.CbcDecryptLast | core/utils/encrypt.go:74-75 | decryption depends, block by block, on nothing but the block and the one before it |
| Encryption.EncryptBlocks | core/utils/encrypt.go:60-61 | the buffer is overwritten by its encryption |
| Encryption.DecryptBlocks | core/utils/encrypt.go:74-75 | the buffer is overwritten by its decryption, from the end |
| Encryption.EncryptAES | core/utils/encrypt.go:52-64 | hexadecimal text of the chained and padded source |
| Encryption.DecryptAES | core/utils/encrypt.go:66-78 | the outcome for every input, with the error for bad text and the panics for bad lengths and bad padding, made explicit by DecryptsExactlyWhen |
| Encryption.DecryptsExactlyWhen | core/utils/encrypt.go:66-78 | an error if and only if the text has an odd length or a character that is no hexadecimal digit; a panic for a length that is no multiple of 32, for the empty text, and if the last decrypted byte exceeds what there is; else as many bytes as that byte says are cut off |
| Encryption.RoundTrip | core/utils/encrypt.go:52-78 | DecryptAES gives back what EncryptAES was given |
| Hex.HexRoundTrip | core/utils/encrypt.go:62-67 | decoding undoes encoding |
| Hex.EncodedDigits | core/utils/encrypt.go:62 | each byte is two digits, the high one first |
| Hex.DecodesExactlyWhen | core/utils/encrypt.go:67-70 | a text can be decoded if and only if it is an even number of hexadecimal digits |
| Hex.DecodeThenEncode | core/utils/encrypt.go:62-67 | encoding undoes decoding if and only if there was no upper-case digit |
| Shuffle.ShuffleArray | core/utils/array.go:36-46 | the array ends as the draws say |
| Shuffle.ShuffledIsPermutation | core/utils/array.go:38-43 | every sequence of draws gives a permutation |
| Shuffle.EveryPermutationIsDrawn | core/utils/array.go:38-43 | every permutation is given by some draws |
| Shuffle.DrawsAreUniqueExactlyWhenDistinct | core/utils/array.go:38-43 | no two sequences of draws give the same result if and only if the elements are distinct |
| Daemon.Process.Send | core/process/daemon.go:129-150 | a send needs a live receiver, which returns after the last signal |
| Daemon.Process.RunProcess | core/process/daemon.go:42-67 | one process and its signals |
| Daemon.Process.Round | core/process/daemon.go:41-93 | one round: signals, error counter, and whether the loop ends |
| Daemon.Process.Start | core/process/daemon.go:38-94 | the whole run: its processes, its signals, the counter, and the handlers left over |
| Daemon.LaunchesAreBounded | core/process/daemon.go:76-86 | at least one and at most max(1, maxErrors - errors) processes, exactly that many when it gives up; the counter grows by the non-zero exits that were no stop |
| Daemon.RunIsDetermined | core/process/daemon.go:38-94 | on the same processes there is one run |
| Daemon.EndsExactlyWhen | core/process/daemon.go:51-93 | a run ends by a stop if and only if its last process failed and was stopped, by itself if and only if that exited with 0 otherwise, and by errors if and only if all its processes count as errors, which reach the maximum; all earlier processes exited with another code and were not stopped |
| Daemon.NothingAfterStop | core/process/daemon.go:51-56 | a process that sees the stop is the last one |
| Daemon.SignalsFollowProtocol | core/process/daemon.go:129-150 | the signals follow the automaton of create, start, stopped, error and exited, and its final state tells the ending |
| Daemon.SignalsTell | core/process/daemon.go:42-67 | of each process the signals tell how it ended: error exactly for one that failed and was not stopped, stopped exactly for one that failed, exited for all but the stopped ones |
| Daemon.SignalsCount | core/process/daemon.go:38-94 | so do the numbers of signals over a run |
| Filter.AddCondition | core/utils/filter.go:22-46 | it fails exactly for an unknown operator; the entry added is satisfied exactly where the condition holds, whatever the database compares |
| Filter.FilterToQuery | core/utils/filter.go:11-49 | it fails exactly when some operator is unknown, and else reflects the last set condition of each key; no filter gives no query |
| Filter.SelectsByLastConditions | core/utils/filter.go:16-48 | a document matches if and only if for each key the last condition other than "ns" holds |
| Filter.SelectsTheConjunction | core/utils/filter.go:16-48 | all conditions hold if and only if the query matches and the overridden ones hold; with distinct keys none is overridden |
| Filter.EachOperator | core/utils/filter.go:22-46 | what each of the operators selects by itself; one that is not set selects everything |
| Filter.LowerBoundIsLost | core/utils/filter.go:38-43 | of two bounds on one key only the later is left |
| Filter.ContainsIgnoresCase | core/utils/filter.go:28-29 | with a value free of special characters, "c" selects exactly the texts that contain it, ignoring case |
| Filter.NotContainsIsNoNegation | core/utils/filter.go:28-31 | with such a value, every document satisfies "c" or "nc", and both exactly if its text contains the value in another case only |
| Filter.BothSelectAbc | core/utils/filter.go:28-31 | the text ABC satisfies both for the value abc |

## Assumptions

- Remote listings: siblings have distinct names without slashes, files have a checksum, and equal checksums stand for equal
  content. The root is a prefix of every listed path.
- Remote to local: the local root is a clean path. A local path is a file or absent: directories of the local disk are not
  part of the model.
- Local to remote: local files have a checksum. Deleting what is gone succeeds.
- Cron fields have a maximum below 63, as the six fields have.
- Results: where different results are said to be told apart, the hash of their key fields is taken to be injective, which
  JSON and MD5 are but for collisions.
- Filters on text: the database finds a regular expression without special characters, in ASCII text, where it occurs.
- Bson scalars have a lawful equality.

## Left out

- gRPC code, controllers, routers, middleware, senders, users and tokens: transport and thin wrappers.
- Network clients, database sessions and the git wrapper: calls into other systems.
- Waiting, logging, tracing, wall-clock times and the pauses between restarts or retries.
- RemoteToLocal.SyncRemoteToLocal: modes, owners and times of files, and empty directories, are not modelled; the wait of a
  nested request for its turn is part of Dispatcher only.
- LocalToRemote.SyncLocalToRemote: remote content changes only through this run while it lasts, and a failed attempt at a
  delete or upload leaves it as it was; that the run as a whole is repeated after an error is part of Dispatcher only.
- FileIndex.IndexLocal: filepath.Dir is modelled on clean paths only.
- Dispatcher.ExactlyOneReply: what the functions of the requests do is a script of nested requests and results; the limit on
  queries per second is left out.
- DirectoryListing.List: paths are sequences of names, cleaned already; sizes, times, modes and extensions are copied without
  a decision and left out.
- Scheduler.SchedulerRuns: Enable, Disable and update are single steps, as under the lock; an update interleaved with them
  statement by statement is not modelled. When cron fires an entry is left out.
- TemplateParser.RenderIsPositional: where a replacement does land elsewhere, the result can still be the positional one by
  chance; when it is, is not characterised.
- RemoteToLocal.MirrorsExactlyWhen: a file in a listed directory that two indexes may mistake, that does not lie in place and
  is not sure to be mistaken by all, is left open: what its directory lists depends on the order of the calls in between.
- RemoteToLocal.RequestSync: with a root that recurs, the outcome is described for runs without a fault only.
- Notification.Render: the text of each field is a function of entity and name; conversion to HTML is left out.
- CronRange.GetRange: a word is the sequence of its 64 bits, on which the shifts and logical operators are defined.
- ResultStore.ServiceMongo.Insert: the hash is a function of the values of the key fields; two services that insert at the
  same time are not modelled, nor is the document's _id.
- BsonDocs.NormalizeBsonMObjectId: documents are values, so two fields that share one nested map are not modelled; arrays
  inside are compared as values.
- Encryption.RoundTrip: the block cipher is any permutation of 16-byte blocks; AES itself is not part of this model.
- Shuffle.ShuffleArray: how likely each draw is.
- Daemon.Process.Start: the race between the daemon and the handler on the error message.
- Filter.FilterToQuery: values that are themselves operator documents.
