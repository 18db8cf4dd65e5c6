# dropsave, modelled in Dafny

dropsave scans one inbox directory of a Dropbox account (`/dropsave`), and moves each
file whose name names a category into that category's year-stamped directory under
`/documents/`, creating the category directories first when they are missing.

This project models the decision logic of that program over an abstract storage service:

- `config.dfy` (module `Config`): the source directory, the destination root, the
  year-stamped base path and the category registry, as pure functions of the year.
  The registry is an ordered sequence of (category, path) pairs, as Python dictionaries
  keep insertion order.
- `storage.dfy` (module `RemoteStorage`): the storage service. Its state is a `Remote`
  value: the existing directories, the log of create and move calls issued, the paths on
  which the service reports an error other than "not found", the paths on which it
  refuses to create a folder although a lookup reports them missing (a permission or
  conflict error), and each listable directory's listing split into pages. Lookups and listings are functions of that state;
  the class `Storage` holds the state and its two mutating calls, `CreateFolder` and `Move`.
- `dropbox_helper.dfy` (module `DropboxHelper`): the existence probe, the file-path
  guard in front of directory creation, the paginated listing (a `while` loop over
  continuation pages, then a `for` loop keeping file names), and the move of one file.
  Each state-changing method is proved against a function on `Remote` values.
- `runner.dfy` (module `Runner`): one run: list the inbox, ensure every configured
  directory, build the source-to-destination map, move each pair. The ensure loop, the
  move loop and the run are methods over a `Storage` object, each proved equal to a
  function (`EnsureAll`, `MoveAll`, `RunOutcome`) whose properties are lemmas.
- `errors.dfy` (module `Errors`): the errors a run can end with and the `Result` type.
- `paths.dfy` (module `Paths`): the `Path` type shared by all modules.

Where the program's comments and its code disagree, the model follows the code:

- The comment at dropbox_helper.py:41 says the guard checks that the path "does not
  end with a file extension". The regular expression `\.[^.]*$` on line 42 in fact
  rejects every path that holds a `.` anywhere, because `[^.]*` also matches `/`.
  `GuardMatchesIffDot` proves this, with Python's reading of `$` (end of text, or
  before a final newline).
- runner.py:35 records a triple (final name, source, destination) per move. The model
  records (source, destination); see "Left out".

## Model

| member | source | states |
|---|---|---|
| `Config.DecimalRoundTrip` | config.py:21 | the year's text in the f-string is a non-empty run of decimal digits, without a leading zero, that reads back as the year |
| `Config.BaseDestPath` | config.py:20-21 | `BASE_DEST_PATH` starts with `DEST_DIR` and continues with one or more decimal digits, nothing else |
| `Config.BaseDestPathIsRootThenYear` | config.py:20-21 | `BASE_DEST_PATH` is `DEST_DIR` followed by exactly the decimal digits of the year, without a leading zero unless the year is 0, so the suffix parses back to the year |
| `Config.DirectoryConstantsShape` | config.py:14-18 | `SOURCE_DIR` starts with "/" and does not end with "/"; `DEST_DIR` starts and ends with "/" |
| `Config.CategoryToPathMap` | config.py:23-33 | the registry is keyed by "receipts" then "videos", the keys are lowercase and distinct, and each value is `BASE_DEST_PATH` followed by a space and a suffix |
| `Config.DestinationDirsWellFormed` | config.py:17-33 | the values are `BASE_DEST_PATH + " Receipts"` and `BASE_DEST_PATH + " Videos"` in that order; each starts with `DEST_DIR` and so with "/", none ends with "/", none holds a '.', and they are distinct, for every year |
| `DropboxHelper.MatchAtIffDotWithoutLaterDot` | dropbox_helper.py:42 | the pattern `\.[^.]*$` matches at an index exactly when a '.' stands there and no '.' follows it; the newline alternative of Python's `$` adds no match |
| `DropboxHelper.LooksLikeFilePath` | dropbox_helper.py:42 | `re.search` with that pattern succeeds exactly when some '.' in the path has no later '.' |
| `DropboxHelper.GuardMatchesIffDot` | dropbox_helper.py:41-44 | `re.search(r"\.[^.]*$", path)` succeeds exactly when the path holds a '.' anywhere |
| `DropboxHelper.PathExists` | dropbox_helper.py:11-31 | an existing directory gives true, a missing one false, and every other lookup outcome is raised as an error |
| `DropboxHelper.CreateDirectory` | dropbox_helper.py:34-47 | a path holding a '.' is rejected with the storage untouched and no call issued; any other path issues exactly one create call, for that path, which adds it unless it exists, the service fails on it, or the service refuses its creation |
| `DropboxHelper.CreateDirectoryAtPath` | dropbox_helper.py:34-47 | the new storage state and the result are those of `CreateDirectory` on the old state |
| `DropboxHelper.FlattenSplit` | dropbox_helper.py:73-78 | the accumulated entries are those of the pages before any split point followed by those after it |
| `DropboxHelper.PagesInOrder` | dropbox_helper.py:73-78 | every page, the final one included, appears whole in the accumulation, after all earlier pages and before all later ones |
| `DropboxHelper.FileNamesAppend` | dropbox_helper.py:80-83 | filtering the concatenation of two entry lists is concatenating their filtered names |
| `DropboxHelper.FileNamesMembership` | dropbox_helper.py:80-86 | a name is kept exactly when a file entry of that name was listed; names of non-file entries never appear unless a file has the same name |
| `DropboxHelper.FileNamesLength` | dropbox_helper.py:80-86 | the result has at most one name per entry, and exactly one per entry when all entries are files |
| `DropboxHelper.DirectoryContents` | dropbox_helper.py:59-88 | what the listing returns or raises: success exactly on a listable directory the service does not fail on, a not-found error for a missing directory, at most one name per listed entry |
| `DropboxHelper.DirectoryContentsAreListedFiles` | dropbox_helper.py:59-88 | a successful listing returns the file names of all pages in page order then entry order, only names of listed files, at most as many as there were entries |
| `DropboxHelper.MissingDirectoryRaises` | dropbox_helper.py:60-67 | a listing of a directory that does not exist raises a not-found error rather than returning an empty list |
| `DropboxHelper.GetDirectoryContents` | dropbox_helper.py:50-88 | follows continuation pages while more are announced and returns the in-order file names of all pages; raises not-found for a missing directory and a remote error for a faulty one; changes nothing |
| `DropboxHelper.MoveFile` | dropbox_helper.py:91-102 | one move call is issued for exactly that pair; it fails when the service fails on either end; only the call log changes |
| `DropboxHelper.MoveDropboxFile` | dropbox_helper.py:91-102 | the new storage state and the result are those of `MoveFile` on the old state |
| `Runner.EnsureDirectory` | runner.py:24-26 | one iteration: an existing directory costs no call; at most one create call is issued, only for a directory the probe reported absent; a success leaves the directory existing; only directories and the log change |
| `Runner.EnsureAll` | runner.py:23-26 | the ensure loop in order, stopping at the first error; it only adds directories and extends the log |
| `Runner.EnsureDirectories` | runner.py:22-26 | the storage state and result after the loop are those of `EnsureAll` over the given directories in order |
| `Runner.EnsureStopsAtError` | runner.py:23-26 | once a directory's probe or creation fails, no later directory is probed or created |
| `Runner.EnsureCreatesOnlyMissing` | runner.py:23-26 | the loop only appends create calls, each for a listed directory that was absent and not failing when the loop started; the directories gained are exactly those created whose creation was not refused; the rest of the storage is unchanged |
| `Runner.EnsureEstablishes` | runner.py:23-26 | after a successful loop every listed directory exists |
| `Runner.EnsureNoop` | runner.py:23-26 | over a storage where every listed directory exists, the loop issues no call and changes nothing |
| `Runner.EnsureIdempotent` | runner.py:23-26 | a second ensure pass over the storage the first one left issues no creation and changes nothing |
| `Runner.EnsureSucceedsIffEnsurable` | runner.py:23-26 | for paths the guard accepts, the loop succeeds exactly when every directory is ensurable (the probe does not fail, and the directory exists or its creation is not refused), and fails only with a remote error |
| `Runner.ConfiguredDirsPassGuard` | config.py:21-33 | for every year, every configured directory passes the creation guard |
| `Runner.FirstFailure` | runner.py:34-35 | the index of the first pair whose move fails: every earlier pair moves, the pair at the index fails |
| `Runner.MoveAll` | runner.py:33-35 | the move loop in order, stopping at the first failed move; only the log changes, and a success records one entry per pair |
| `Runner.MoveFiles` | runner.py:32-35 | the storage state and result after the loop are those of `MoveAll` over the map's pairs in order |
| `Runner.MovesStopAtError` | runner.py:34-35 | once a move fails, no later pair is moved |
| `Runner.MovesStopAtFirstFailure` | runner.py:33-35 | the loop issues the moves of every pair up to and including the first failing one, in order, and none after it; earlier moves stay; on success the record holds every pair, with its own source and destination, in order |
| `Runner.RunOutcome` | runner.py:16-35 | listing, then ensure, then mapping, then moves; a failed listing changes nothing; a run never removes a directory and changes only the directories and the log |
| `Runner.Run` | runner.py:16-35 | the storage state and result of a run are those of `RunOutcome`: listing, then ensure, then mapping, then moves |
| `Runner.EnsureStageCoversRegistry` | runner.py:19-26 | once the listing succeeds, the ensure stage covers every configured directory whatever files were listed and whatever the mapping: it succeeds exactly when every configured directory is ensurable, and then all of them exist at the end of the run |
| `Runner.RunStagesInOrder` | runner.py:16-35 | a failed listing issues no call; otherwise every create call precedes every move call, moves are issued only when the ensure stage succeeded, and the earlier log is kept |
| `Runner.SuccessfulRunMovesEveryPair` | runner.py:28-35 | a successful run records exactly the mapping's pairs in iteration order, issues the ensure stage's creations then one move per pair, and leaves every configured directory existing |
| `Runner.SecondRunCreatesNothing` | runner.py:22-26 | after a successful run, the next run's ensure stage issues no creation |

## Left out

- The Dropbox SDK transport (`files_get_metadata`, `files_create_folder`, `files_list_folder`, `files_list_folder_continue`, `files_move`) is replaced by the abstract storage of `storage.dfy`; which paths make the service fail is a fixed set of faulty paths in the storage state.
- Authentication, the client's lifetime and the `TOKEN` and `LOGFILE` settings are environment plumbing and are not modelled.
- Logging setup and every log call are side output without decision logic and are not modelled.
- The clock: the year is a parameter instead of `datetime.now().year`.
- The inspection of SDK exception classes is replaced by closed outcome types (`Probe`, `ListResponse`, `Errors.Error`); the two ways `dropbox_path_exists` re-raises (the lookup error or the whole API error) both become `RemoteFailure`.
- `destination_factory` is not part of this model: the classifier and the path builder are a function parameter of type `Runner.Factory`. Being a total Dafny function, it is assumed to always return a mapping, never to raise, and to issue no storage calls.
- Runner.MoveFiles: records (source, destination) pairs; the final file name of each triple comes from a metadata lookup after the move, which is foreign data, and the failure of that lookup is not modelled.
- DropboxHelper.MoveFile: returns no final file name; the move result's metadata name is foreign data and is not modelled.
- DropboxHelper.MoveDropboxFile: returns no final file name, for the same reason as `DropboxHelper.MoveFile`.
- RemoteStorage.WellFormed: does not tie listings to folders; which directories can be listed and which exist are independent parts of the storage state, so a listing of a directory that was never created is allowed.
- `files_list_folder_continue` is called on the class rather than the client in the source; the model follows the evident intent, continuing the listing through its cursor, and continuation never fails.
- Remote failures are fixed per path: the service fails on a path for every request or for none, and refuses folder creation on a fixed set of paths; transient failures are not modelled.
- A move changes only the call log: the file tree of the storage (which files exist where) is not modelled.
- The error message of the path guard lacks its f-prefix; message texts are not modelled.
