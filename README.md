# Embroidery Template Cleaner, modelled in Dafny

Embroidery Template Cleaner deletes embroidery-machine template files
(`.dst`, `.pes`, `.jef`, …) below a chosen target directory. After each
deletion it prunes the directories that the deletion left empty. A directory
that holds only preview images or PDFs (display files) counts as empty once
the user agrees to delete them. When an `unlink` or `rmdir` fails, the user
chooses Retry, Skip or Abort.

In the final revision the cleaning walk runs in a background worker. The
worker talks to the user interface through two queues: events go out, and
responses come back.

This project models that walk, the worker that pumps its events, the
validated configuration, and the event vocabulary. It also models the two
earlier revisions of the program (`cleaner.py`/`config.py` and
`sewing_file_cleaner.py`). Those revisions have a simpler walk, different
matching rules and different configuration checks.

How each part is modelled:

- **Filesystem** (`filesystem.dfy`). A path is the sequence of its name
  components. A filesystem is a map from path to `File` or `Dir`, plus the
  order in which the system enumerates entries. `iterdir` and `rglob` are
  that order, restricted to what exists. In the final revision `rglob` also
  lists nothing below a directory whose listing raises `PermissionError`,
  because pathlib's walk swallows that error. `unlink` and `rmdir` fail as
  they really do: on a missing entry, on the wrong kind of entry, and on a
  directory that is not empty.
- **Environment of a run** (`world.dfy`). A `World` value holds:
  - the filesystem;
  - a script of injected `OSError`s;
  - the directories whose listing raises `PermissionError`;
  - the outcome of the initial scan;
  - the responses the interface will supply;
  - the transcript of everything put on the update queue and taken from the
    response queue.

  Running out of responses is the distinguished outcome `Stuck`, which is
  the worker blocking on an empty queue. Each step of the walk is a method
  from one world to the next.
- **Final revision** (`cleaner.dfy`, `worker.dfy`, `configuration.dfy`,
  `events.dfy`). The nested generators become nested method calls. A yield
  becomes `World.Emit` for a status update, or `World.Ask` for a request,
  which puts the request and takes exactly one response. An escaping
  exception becomes a `Flow` outcome: `Aborted` for Abort, or `Crashed` for
  the `AttributeError` a mismatched response raises. The transcript
  records exactly the responses taken from the queue, in queue order
  (`World.Records`, kept by `World.Idle` and `World.Channel`).
  `World.EndedBy` ties each such outcome to the request and the response
  that raised it: the last two steps of the transcript, a request and the
  answer that is the last response taken in the step. A blocked run has
  taken every response. The promises about what a run deletes
  hold under `World.NoFaultsAhead`: no `OSError` is scripted for any attempt
  still to come.
- **Earlier revisions** (`early_walk.dfy`, `legacy_cleaner.dfy`,
  `legacy_config.dfy`, `sewing_file_cleaner.dfy`, `json_record.dfy`). They
  thread the filesystem as a value, and an escaping exception is a
  `Failure`. Their loops are methods proved equal to the functions
  `EarlyWalk.Climb`, `EarlyWalk.DeleteAndClean` and `EarlyWalk.DeleteEach`.
  The boundary, selection and counting properties are proved about those
  functions.

Behaviours of the code worth noting:

- A path that is no longer a directory makes the emptiness check answer
  false, not true (`embroidery_template_cleaner/core/cleaner.py:63-64`).
- A failed initial scan emits a status update and ends with a normal result
  of 0, not an error event (`embroidery_template_cleaner/core/cleaner.py:163-165`).
- A name matches when either its lower-cased suffix or its lower-cased whole
  name is an extension (`embroidery_template_cleaner/core/cleaner.py:136`).
  It does not have to be the whole name for a dot-file and the suffix
  otherwise.
- Extensions in the configuration are checked case-sensitively, and only the
  file name is lower-cased
  (`embroidery_template_cleaner/core/configuration.py:48-50`).
- The pruning walk asks the emptiness check before it tests the upper bound
  (`embroidery_template_cleaner/core/cleaner.py:108-112`). So display files
  directly in the target directory can be offered for deletion, but the
  target directory itself is never removed.

## Model

| member | source | states |
|---|---|---|
| Names.LowerChar | embroidery_template_cleaner/core/cleaner.py:136 | an ASCII capital becomes its lower-case letter, every other character is kept, and no result is a capital |
| Names.LowerSpec | embroidery_template_cleaner/core/cleaner.py:136 | lower-casing keeps the length and works character by character |
| Names.LowerIsLower | embroidery_template_cleaner/core/cleaner.py:136 | a lower-cased name is lower-case, and lower-casing it again changes nothing |
| Names.LowerKeepsLower | config.py:6 | a string with no capitals is its own lower-cased form |
| Names.RFindSpec | embroidery_template_cleaner/core/cleaner.py:136 | `rfind` gives -1 exactly when the character is absent, and otherwise the index of its last occurrence |
| Names.SuffixShape | embroidery_template_cleaner/core/cleaner.py:136 | a non-empty suffix is a proper tail of the name: a dot, at least one more character, and no further dot |
| Names.LeadingDotOnlyHasNoSuffix | sewing_file_cleaner.py:82 | a name whose only dot is its leading one has an empty suffix |
| Names.SuffixOfInnerDot | sewing_file_cleaner.py:82 | `stem.ext` has suffix `.ext` |
| Names.DsStoreHasNoSuffix | sewing_file_cleaner.py:25 | `.DS_Store` has an empty suffix |
| Names.NatToString | embroidery_template_cleaner/core/cleaner.py:168 | a count renders as decimal digits whose value is the count, with no leading zero except in "0" itself |
| StringOrder.Total | embroidery_template_cleaner/core/configuration.py:74 | Python's string order relates every two strings |
| StringOrder.Transitive | embroidery_template_cleaner/core/configuration.py:74 | Python's string order is transitive |
| StringOrder.Antisymmetric | embroidery_template_cleaner/core/configuration.py:74 | two strings each at most the other are equal |
| StringOrder.SortedElements | embroidery_template_cleaner/core/configuration.py:74 | `sorted(list(s))` lists exactly the elements of `s`, each once, in strictly increasing order |
| FileSystem.ChildrenIn | embroidery_template_cleaner/core/cleaner.py:67 | a directory listing holds exactly the existing entries whose parent is the directory |
| FileSystem.BelowIn | cleaner.py:26 | `rglob("*")` in the earlier revisions holds exactly the existing entries strictly below the directory |
| FileSystem.VisibleBelowIn | embroidery_template_cleaner/core/cleaner.py:162 | the final revision's `rglob("*")` holds exactly the existing entries strictly below the target that no unreadable directory at or below the target hides, in enumeration order |
| FileSystem.EntryNames | embroidery_template_cleaner/core/cleaner.py:80 | the names sent with a confirmation request correspond one to one, in order, with the listed entries |
| FileSystem.UnlinkError | embroidery_template_cleaner/core/cleaner.py:139 | `unlink` succeeds exactly on an existing file |
| FileSystem.RmdirError | embroidery_template_cleaner/core/cleaner.py:116 | `rmdir` succeeds exactly on an existing directory with nothing in it |
| FileSystem.ChildrenEmpty | cleaner.py:7 | in a consistent filesystem a listing is empty exactly when no entry sits in the directory |
| FileSystem.RemoveChildless | embroidery_template_cleaner/core/cleaner.py:116 | removing an entry with nothing under it keeps every remaining entry inside an existing directory |
| FileSystem.ComponentsOfPathString | embroidery_template_cleaner/core/configuration.py:66-73 | parsing the text a path is saved as gives the same path back |
| Events.Error | embroidery_template_cleaner/core/events.py:42-46 | an error event built from a message alone has no traceback |
| World.Propagate | embroidery_template_cleaner/core/cleaner.py:138-142 | an abort, a crash or a block passes unchanged through an enclosing step |
| World.SettledCounts | embroidery_template_cleaner/core/worker.py:39-54 | in a settled conversation, exactly one response was taken per request forwarded |
| World.SettledAdjacent | embroidery_template_cleaner/core/worker.py:40-49 | every request is immediately followed by its response, and every response immediately follows a request |
| World.NoTerminalEverywhere | embroidery_template_cleaner/core/worker.py:56-77 | "no run-ending event" holds of a conversation exactly when no position holds one |
| World.Emit | embroidery_template_cleaner/core/worker.py:50-54 | a status update is forwarded at the end of the transcript, no response is taken, and nothing else changes |
| World.AskStalls | embroidery_template_cleaner/core/worker.py:43-46 | forwarding a request with no response available leaves the worker waiting on exactly that request, and the responses recorded are unchanged |
| World.AskAnswered | embroidery_template_cleaner/core/worker.py:43-49 | forwarding a request and taking its response settles the conversation again, and that response is recorded after the earlier ones |
| World.RecordsReplies | embroidery_template_cleaner/core/worker.py:40-54 | the transcript records a sequence of responses exactly when those are its answered steps in order |
| World.RepliesSince | embroidery_template_cleaner/core/worker.py:40-49 | the answers a run adds to the transcript are exactly the responses it took from the queue, in queue order |
| World.Ask | embroidery_template_cleaner/core/worker.py:40-49 | the request is forwarded, then exactly the next response in the queue is taken and recorded; with none left the worker blocks after taking them all |
| World.Attempt | embroidery_template_cleaner/core/cleaner.py:39-42 | one attempt raises the injected error if one is scripted, and otherwise the real one; on success exactly the entry is removed |
| World.NoFaultsLater | embroidery_template_cleaner/core/cleaner.py:39-42 | a run with no fault scripted ahead keeps none ahead, and its next attempt has none |
| Cleaner.DisplayFiles | embroidery_template_cleaner/core/cleaner.py:75 | keeps exactly the listed entries that are files with a display suffix |
| Cleaner.DisplayFilesAll | embroidery_template_cleaner/core/cleaner.py:75-77 | the display files are as many as the entries exactly when every entry is a display file, and then they are the entries |
| Cleaner.RetryLogChain | embroidery_template_cleaner/core/cleaner.py:38-53 | the requests of successive failed attempts, each carrying its own attempt's error text, form one log |
| Cleaner.Decide | embroidery_template_cleaner/core/cleaner.py:49-53 | Retry loops, Skip gives false, Abort raises, a confirmation response crashes on `choice`, and nothing yields true |
| Cleaner.AskAfterFailure | embroidery_template_cleaner/core/cleaner.py:42-52 | after a failure, the first thing forwarded is one request carrying the operation, the path and the error text; exactly one response is taken and decided as above; the filesystem is untouched; an abort or crash ends on that request and response |
| Cleaner.RetryPass | embroidery_template_cleaner/core/cleaner.py:39-52 | the pass succeeds exactly when its attempt raises no error, and then removes exactly the entry with no event and no response; otherwise the request carries that attempt's error text and the filesystem is as it was |
| Cleaner.RetryRound | embroidery_template_cleaner/core/cleaner.py:38-53 | a pass answered with Retry keeps the loop's record of failed attempts and Retry answers; any other pass ends the operation with the promises of `RetryableOperation` |
| Cleaner.RetryableOperation | embroidery_template_cleaner/core/cleaner.py:23-53 | true exactly after the operation succeeded, and then only it changed the filesystem; with no fault scripted a valid operation succeeds at once; every response taken was Retry except the last, which decides the outcome; one request per failed attempt, each carrying that attempt's error text; an abort or crash ends on the response that caused it |
| Cleaner.RemovedAreDisplayChildren | embroidery_template_cleaner/core/cleaner.py:87-92 | deleting inside a directory that holds only display files removes only its listed entries |
| Cleaner.ChildrenGone | embroidery_template_cleaner/core/cleaner.py:87-96 | once every entry a directory listed is gone, it lists nothing |
| Cleaner.ConfirmDisplayDeletion | embroidery_template_cleaner/core/cleaner.py:78-99 | confirmation lists the directory's entries; rejection emits the skip note and deletes nothing; acceptance announces the deletion, removes only those entries, and answers true exactly when the directory is then empty; with no fault ahead, acceptance deletes every entry and answers true; a mismatched response crashes on that response |
| Cleaner.DeleteDisplayFiles | embroidery_template_cleaner/core/cleaner.py:87-96 | the announcement comes first, only the directory's entries are removed, the directory survives, and the answer is whether it is now empty; with no fault ahead every entry is deleted and the answer is true |
| Cleaner.IsDirectoryEmptyAndConfirm | embroidery_template_cleaner/core/cleaner.py:57-101 | false for a non-directory, for an unreadable one (with its status note) and for mixed contents, all without other effect; true for an empty one; otherwise it asks as `ConfirmDisplayDeletion` does, with the same outcome, including deletion after acceptance; a true answer means the directory exists and is empty; only display files directly inside are ever removed |
| Cleaner.PrunedOnlyKeepsOutside | embroidery_template_cleaner/core/cleaner.py:109-112 | a walk that visited only directories at or below the target removes nothing outside it |
| Cleaner.PruneStep | embroidery_template_cleaner/core/cleaner.py:108-119 | the walk stops at a directory reported non-empty, missing or unreadable and at one the target is not a proper ancestor of; it continues only from a directory reported empty and strictly below the target, which is then gone or still there and empty after a skipped `rmdir`; with no fault ahead such a directory is removed and the walk continues; an empty directory the target is not a proper ancestor of ends the walk with the stopping note as its last event |
| Cleaner.RemoveEmptyDirectory | embroidery_template_cleaner/core/cleaner.py:114-119 | announces the removal, then either removes exactly that childless directory or leaves the filesystem as it was; with no fault scripted a childless directory is removed with no request; the walk goes on unless the user aborted, a response crashed or the worker blocked |
| Cleaner.PrunedOnlyStep | embroidery_template_cleaner/core/cleaner.py:108-121 | the removals of successive steps are removals of the walk so far |
| Cleaner.WalkUp | embroidery_template_cleaner/core/cleaner.py:121 | moving to the parent keeps the visited directories a chain of parents at or below the target |
| Cleaner.PassedStep | embroidery_template_cleaner/core/cleaner.py:108-121 | a directory the walk moved up from stays gone or empty, and gone stays gone, while later steps only remove entries |
| Cleaner.PruneRound | embroidery_template_cleaner/core/cleaner.py:106-121 | a step that goes on keeps the walk's record one directory higher; a step that stops ends the walk with the promises of `DeleteEmptyParentDirectories` |
| Cleaner.DeleteEmptyParentDirectories | embroidery_template_cleaner/core/cleaner.py:105-121 | visits the anchor's parent and then successive parents; every directory it moved up from was reported empty and is gone, or still there and empty after a skipped `rmdir`, and with no fault ahead it is gone; a normal end is at a directory not to be removed; removes only display files in visited directories and visited directories strictly below the target, never anything outside the target |
| Cleaner.DeleteNext | embroidery_template_cleaner/core/cleaner.py:132-147 | one entry of the pass keeps its record: the unlinked files listed once each, only display files and directories below the target besides them, and with no fault ahead every matching file so far gone |
| Cleaner.DeleteOne | embroidery_template_cleaner/core/cleaner.py:133-147 | an entry that is not an existing matching file is skipped with no effect; otherwise it is counted exactly when it was unlinked, and with no fault scripted it is; when it was not, nothing changed; only it, display files and directories below the target disappear |
| Cleaner.UnlinkAndPrune | embroidery_template_cleaner/core/cleaner.py:137-147 | first announces the deletion of that file; true exactly when the file was unlinked, which it is when no fault is scripted; a failed or skipped unlink changes nothing, so pruning follows only a removal; nothing outside the target changes |
| Cleaner.DeleteMatchingFiles | embroidery_template_cleaner/core/cleaner.py:126-149 | the count equals the number of distinct snapshot entries that were matching files and were unlinked; besides them only display files and directories below the target disappear; with no fault ahead, a normal end leaves no matching file of the snapshot |
| Cleaner.ScanAndDelete | embroidery_template_cleaner/core/cleaner.py:160-174 | announces the scan; a scan failure reports and returns 0 without any change; otherwise the snapshot is what `rglob` lists, its size is reported, deletion works on it, and nothing outside the target changes; with no fault ahead a normal end leaves no matching file of the snapshot |
| Cleaner.CleanDirectoryGenerator | embroidery_template_cleaner/core/cleaner.py:153-174 | with no target it returns 0 with no event and no change; otherwise as `ScanAndDelete`, deletion guarantee included |
| Worker.OneTerminal | embroidery_template_cleaner/core/worker.py:56-77 | a finished conversation holds exactly one run-ending event, its last |
| Worker.Finish | embroidery_template_cleaner/core/worker.py:56-77 | putting the run-ending event finishes the conversation without touching the filesystem |
| Worker.TerminalEvent | embroidery_template_cleaner/core/worker.py:56-77 | the result event with the count and target text exactly for a normal end; the abort message without traceback exactly for Abort; the prefixed message with traceback exactly for any other exception |
| Worker.RunCleaningTask | embroidery_template_cleaner/core/worker.py:16-82 | unless it blocks, the run ends with exactly one run-ending event that matches how the walk ended, and an abort or crash event directly follows the request and the response that raised it, which is the last response the run took from the queue; the transcript records exactly the responses taken, in order; with no target that is `CleaningResult(0, "None")` and nothing changes; the count is the number of unlinked matching snapshot files; with no fault ahead a normal end leaves no matching file of the snapshot |
| Configuration.RegistriesDisjoint | embroidery_template_cleaner/core/configuration.py:7-34 | no extension is both a template and a display extension |
| Configuration.New | embroidery_template_cleaner/core/configuration.py:41-53 | succeeds exactly for no target or an existing directory, with every extension in a registry, and then holds exactly its arguments; otherwise the first failing check's error |
| Configuration.CaseSensitive | embroidery_template_cleaner/core/configuration.py:48-50 | an upper-case spelling of a registered extension is rejected |
| Configuration.DecodedTarget | embroidery_template_cleaner/core/configuration.py:63-66 | a missing or empty target text means no target |
| Configuration.DecodedExtensions | embroidery_template_cleaner/core/configuration.py:64 | a missing list means the empty set, and otherwise the set of the listed strings |
| Configuration.FromJsonFile | embroidery_template_cleaner/core/configuration.py:55-68 | an unreadable file is rejected; a decoded document loads exactly when its decoded target (none when missing or empty) is absent or a directory and its decoded extensions are registered, and then yields exactly them; its failures are construction's |
| Configuration.ToJsonStr | embroidery_template_cleaner/core/configuration.py:70-75 | both keys are written; the text is empty exactly when there is no target; the extensions are sorted and are exactly the set |
| Configuration.RoundTrip | embroidery_template_cleaner/core/configuration.py:55-75 | saving and loading again gives back the same configuration |
| Configuration.LoadConfig | embroidery_template_cleaner/core/configuration.py:77-84 | the loaded configuration when loading succeeds, the empty default otherwise, and always valid |
| JsonRecord.CheckKeys | config.py:49-56 | the four key and type checks, in order, each with its own error; success exactly for a text target and a list blacklist |
| JsonRecord.ItemSet | config.py:59 | the set of the listed strings |
| LegacyConfig.RegistryIsLowerCase | config.py:6-26 | every registry entry is lower-case |
| LegacyConfig.New | config.py:32-44 | succeeds exactly for no target or an existing directory, with the extensions inside the registry (an empty set always passes); otherwise the first failing check's error |
| LegacyConfig.FromJson | config.py:47-61 | key and type errors come first; for a well-typed object, loading succeeds exactly when the target text is empty or names a directory and the listed items lie in the registry, and fails otherwise with construction's error; an empty text means no target and any other text that path; the blacklist is the set of the listed items |
| LegacyConfig.ToJson | config.py:63-67 | the text is empty exactly when there is no target, and the listed items are exactly the blacklist |
| LegacyConfig.DecodingIgnoresOrder | config.py:59-66 | loading depends on the saved list only through its elements, so Python's unspecified set order does not matter |
| LegacyConfig.RoundTrip | config.py:47-67 | saving and loading again gives back the same configuration |
| LegacyConfig.LoadConfig | config.py:69-72 | no file gives the empty configuration; an existing file gives what `from_json` gives, its errors included; anything loaded is valid |
| EarlyWalk.IsDirectoryEmpty | cleaner.py:4-7 | defined only on an existing directory; empty exactly when nothing sits in it |
| EarlyWalk.FailureSticks | cleaner.py:26-37 | once an exception escapes, the rest of the listing is not visited |
| EarlyWalk.ClimbBelowTop | cleaner.py:13-19 | with only errors that follow from the entries' state, the bounded walk-up never fails; it removes exactly the directories from the start up to where it stops, which is the top or a non-empty directory, so the top survives |
| EarlyWalk.ClimbWithoutTop | sewing_file_cleaner.py:72-76 | the unbounded walk-up fails only by running past the root; it removes exactly the empty directories up to the first non-empty one, so the start is removed exactly when it was empty |
| EarlyWalk.DeleteBelowTop | cleaner.py:9-19 | with only errors that follow from the entries' state, deleting a file strictly below the top never fails, and besides the file removes only directories strictly below the top |
| EarlyWalk.SkipStep | cleaner.py:27-33 | an entry that is not a file at its turn, or is not selected, changes nothing and keeps the pass's record |
| EarlyWalk.UnlinkStep | cleaner.py:29-35 | a selected file at its turn that the step removes, with nothing else but directories, is unlinked and recorded once |
| EarlyWalk.BoundedUnlinkStep | cleaner.py:27-35 | unlinking a selected file strictly below the top succeeds and keeps the bounded pass's record |
| EarlyWalk.DeleteWithoutTop | sewing_file_cleaner.py:68-76 | an unbounded deletion that succeeds removes the file and otherwise only directories, and keeps the filesystem consistent |
| EarlyWalk.DeleteEachBelowTop | cleaner.py:21-37 | with only errors that follow from the entries' state the pass never fails; the unlinked files are exactly the listed files selected at their turn, each once; only directories strictly below the top disappear besides them; the top and everything outside it survive |
| EarlyWalk.DeleteEachWithoutTop | sewing_file_cleaner.py:78-84 | the unbounded pass fails only by the walk running past the root; otherwise the unlinked files are exactly the listed files selected at their turn, each once, only directories disappear besides them, and the filesystem stays consistent |
| LegacyCleaner.DeleteAndCleanEmptyDirectories | cleaner.py:9-19 | the loop computes the unlink followed by the bounded walk-up |
| LegacyCleaner.IsSelected | cleaner.py:29-33 | a dot-name is selected by its whole lower-cased name, any other by its lower-cased suffix |
| LegacyCleaner.DsStoreSelected | cleaner.py:29-31 | a `.DS_Store` file is selected by its registry entry |
| LegacyCleaner.DeleteListed | cleaner.py:25-37 | the loop computes the pass over the listing, and its count is the number of files unlinked |
| LegacyCleaner.DeleteFilesByExtension | cleaner.py:21-37 | no target returns 0 and changes nothing; otherwise the pass over every entry below the target |
| LegacyCleaner.CleanDirectory | cleaner.py:39-40 | with only errors that follow from the entries' state, on a target directory it never fails, keeps the filesystem consistent, keeps the target and everything outside it, and only removes entries; the count is the number of distinct files unlinked, which are exactly the selected files below it |
| SewingFileCleaner.DeleteAndCleanEmptyDirectories | sewing_file_cleaner.py:68-76 | the loop computes the unlink followed by the unbounded walk-up |
| SewingFileCleaner.DeleteFilesByExtension | sewing_file_cleaner.py:78-84 | the pass with exact, case-sensitive suffix matching over every entry below the target; on a consistent filesystem it fails only by the walk running past the root; otherwise a file disappears exactly when it lies below the target and its exact suffix is listed, the unlinked ones each once, and only directories disappear besides them |
| SewingFileCleaner.DeleteListed | sewing_file_cleaner.py:79-84 | the loop computes the pass over the listing |
| SewingFileCleaner.DsStoreNeverSelected | sewing_file_cleaner.py:82 | the registry lists `.DS_Store`, yet no blacklist drawn from it selects a `.DS_Store` file |
| SewingFileCleaner.SuffixIsCaseSensitive | sewing_file_cleaner.py:82 | `design.pec` is selected and `design.PEC` is not |
| SewingFileCleaner.EmptiedDirectoryRemoved | sewing_file_cleaner.py:68-76 | deleting a directory's only file removes the directory too, target directory included |
| SewingFileCleaner.FromJson | sewing_file_cleaner.py:34-55 | key and type errors first, then a missing or non-directory target is rejected |
| SewingFileCleaner.FromJsonAlwaysFails | sewing_file_cleaner.py:51-53 | loading never succeeds: whatever passes the other checks is rejected for unrecognized extensions |
| SewingFileCleaner.FromJsonIntended | sewing_file_cleaner.py:34-55 | succeeds exactly when the keys are well typed, the target is empty or a directory, and the blacklist lies in the registry |
| SewingFileCleaner.ToJson | sewing_file_cleaner.py:57-61 | fails exactly when there is no target; otherwise writes the target's path and exactly the blacklist |
| SewingFileCleaner.DefaultCannotBeSaved | sewing_file_cleaner.py:86-98 | the configuration built when no file exists cannot be saved |
| SewingFileCleaner.ToJsonIntended | sewing_file_cleaner.py:57-61 | an empty text exactly when there is no target, and exactly the blacklist |
| SewingFileCleaner.RoundTrip | sewing_file_cleaner.py:34-61 | as intended, saving and loading again gives back every configuration loading accepts, the default one included |

## Left out

- Threads and queues: the worker thread, the interface's polling and the queue objects are not modelled. The queues are the transcript, and the worker runs sequentially.
- Forwarding: the worker's pump loop is not a separate loop. `World.Emit` and `World.Ask` forward each event where the walk yields it, so events reach the update queue in the order they were yielded.
- The user interface: the Tkinter windows, dialogs and `gui.py` are not modelled. Any response may appear in the response script, which covers what a closed dialog sends.
- Logging and packaging: `main.py` and `build.py` are not part of this model.
- Real filesystem: `rglob`, `iterdir`, `unlink` and `rmdir` act on the abstract filesystem. In the final revision an `OSError` is either scripted or derived from the entry's state. The error text is a fixed message, not the operating system's.
- Errors in the earlier revisions: `cleaner.py` and `sewing_file_cleaner.py` have no fault script, so only errors that follow from an entry's state are modelled there. A `PermissionError` from `unlink` or `rmdir` (cleaner.py:11, :18, sewing_file_cleaner.py:70, :75), which would escape the loop, is not. The promises that those passes never fail hold only for this model of errors.
- Symbolic links and `Path.resolve()` are not modelled: a path is saved as its own absolute text.
- The filesystem root: in the model `rmdir` removes an empty root like any other directory, where a real system refuses. Only the unbounded walk of `sewing_file_cleaner.py` can reach the root, and only after the whole tree is emptied.
- Relative paths: configuration text is parsed as an absolute path, and empty pieces are dropped.
- Lazy enumeration: `rglob` in the earlier revisions is a snapshot taken before the loop, followed by the `is_file` check at each entry's turn.
- `PermissionError` in the emptiness check: it is a fixed set of unreadable directories. The branch after display-file deletion (`embroidery_template_cleaner/core/cleaner.py:97-99`) cannot occur in the model. The set of unreadable directories does not change during a run, and a directory in it already returns at the first listing.
- Tracebacks: `traceback.format_exc()` is a parameter of `Worker.RunCleaningTask`. `generator.close()` has no effect that is modelled.
- Status messages are structured values (`Events.Status`), which `Events.Text` renders as the source's text. Retry/Skip/Abort descriptions are likewise rendered by `Events.Describe`.
- JSON text and file reads and writes: only the decoded record is modelled. A configuration file is either absent, not JSON, or a decoded object whose list items are strings. `save_config` and the earlier revisions' `save_config`/`main` are I/O only.
- Configuration.FromJsonFile: only a decoded object whose target is a string or missing and whose extension list is a list of strings or missing is modelled. Documents that crash `load_config` at start-up, because it catches only `ValueError`, are not: a document that is not an object (`AttributeError` on `.get`), a truthy target that is not a string such as `5` (`TypeError` in `Path`), and `"extensions_to_delete": null` (`TypeError` in `set`). A string given as the extension list, which `set` splits into its characters, is not modelled either. Path parsing keeps `.` components, where pathlib drops them (`/a/./b` is `/a/b` there).
- Names.LowerChar: lower-casing is ASCII only, where Python's `str.lower` covers all of Unicode. Against the registries this makes no difference: they are all ASCII, and the only non-ASCII character that lower-cases to an ASCII letter is the Kelvin sign, giving `k`, which no registry entry contains.
- `list(set)` order in the earlier `to_json`: written here in sorted order. `LegacyConfig.DecodingIgnoresOrder` shows that the order does not change what loads.
- Worker.RunCleaningTask: the promise that nothing changes after an Abort is not one contract over a whole run. What is stated: the abort event directly follows the request and the Abort response that raised it, and that response is the last one the run took from the queue (`World.EndedBy`, with `World.Records` tying every recorded answer to the queue), the operation that aborts leaves the filesystem as it was (`Cleaner.RetryableOperation`), and every caller returns at once on an outcome that is not normal. Filesystem changes are not recorded in the transcript, so "no change after the last response" is not expressible as a property of it. The transcript as a whole is not given as a function of the world: the contracts pin the requests and announcements named in the rows above, not every event between them. A run that blocks is only said to stop on a request after taking every response; that it can block only on a request the walk actually makes is not stated.

## Findings

| source | as written | input that shows it | evidently intended | confidence | as-written member | corrected member |
|---|---|---|---|---|---|---|
| sewing_file_cleaner.py:52 | `extension_blacklist - SEWING_FILE_EXTENSIONS != {}` compares a set with an empty dict, which is always unequal, so `from_json` always raises | a decoded object with a string target naming an existing directory and the list `[]` | reject only a blacklist with extensions outside the registry | high, not executed | SewingFileCleaner.FromJsonAlwaysFails | SewingFileCleaner.FromJsonIntended |
| sewing_file_cleaner.py:59 | `to_json` calls `resolve()` on the target even when it is `None` | the default `Configuration(target_directory=None, extension_blacklist=set())` that `main` builds when no file exists, then saves (sewing_file_cleaner.py:91, :98) | write an empty text for no target, as the later revisions do | high, not executed | SewingFileCleaner.DefaultCannotBeSaved | SewingFileCleaner.ToJsonIntended |
