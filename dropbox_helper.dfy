/**
 * The helpers between the program and the storage service: the existence probe,
 * directory creation behind its file-path guard, the paginated listing that
 * keeps file names only, and the move of one file.
 */
module DropboxHelper {
  import opened Errors
  import opened Paths
  import opened RemoteStorage

  /** The storage state after an operation, and what the operation returned or raised. */
  datatype Outcome<T> = Outcome(after: Remote, result: Result<T>)

  // ---------------------------------------------------------------------------
  // The directory-path guard: re.search(r"\.[^.]*$", path)

  /** Python's `$`: the end of the text, or just before a newline that ends it. */
  predicate AtEnd(path: string, k: int) {
    k == |path| || (0 <= k == |path| - 1 && path[k] == '\n')
  }

  /** The pattern `\.[^.]*$` matches starting at index i. */
  predicate ExtensionMatchAt(path: string, i: int)
    requires 0 <= i < |path|
  {
    path[i] == '.' && exists k | i + 1 <= k <= |path| :: '.' !in path[i + 1..k] && AtEnd(path, k)
  }

  /**
   * re.search succeeds: the pattern matches starting at some index, which happens
   * exactly when some '.' has no later '.' (the newline alternative of `$` adds no match).
   */
  predicate LooksLikeFilePath(path: string): (r: bool)
    ensures r <==> exists i | 0 <= i < |path| :: path[i] == '.' && '.' !in path[i + 1..]
  {
    MatchAtIffDotWithoutLaterDot(path);
    exists i | 0 <= i < |path| :: ExtensionMatchAt(path, i)
  }

  lemma MatchAtIffDotWithoutLaterDot(path: string)
    ensures forall i | 0 <= i < |path| :: ExtensionMatchAt(path, i) <==> path[i] == '.' && '.' !in path[i + 1..]
  {
    forall i | 0 <= i < |path|
      ensures ExtensionMatchAt(path, i) <==> path[i] == '.' && '.' !in path[i + 1..]
    {
      if ExtensionMatchAt(path, i) {
        var k :| i + 1 <= k <= |path| && '.' !in path[i + 1..k] && AtEnd(path, k);
        if k < |path| {
          assert path[i + 1..] == path[i + 1..k] + [path[k]];
        } else {
          assert path[i + 1..] == path[i + 1..k];
        }
      }
      if path[i] == '.' && '.' !in path[i + 1..] {
        assert path[i + 1..|path|] == path[i + 1..] && AtEnd(path, |path|);
      }
    }
  }

  function LastIndexOf(s: string, c: char): (r: int)
    ensures -1 <= r < |s|
    ensures r >= 0 ==> s[r] == c
    ensures forall j :: r < j < |s| ==> s[j] != c
    decreases |s|
  {
    if s == [] then -1
    else if s[|s| - 1] == c then |s| - 1
    else LastIndexOf(s[..|s| - 1], c)
  }

  /** The guard does not test for a trailing extension: it fires on any '.' anywhere. */
  lemma GuardMatchesIffDot(path: string)
    ensures LooksLikeFilePath(path) <==> '.' in path
  {
    if '.' in path {
      var i := LastIndexOf(path, '.');
      assert '.' !in path[i + 1..];
    }
  }

  // ---------------------------------------------------------------------------
  // dropbox_path_exists

  /** Found is true, not-found is false, every other outcome is raised. */
  function PathExists(s: Remote, path: Path): (r: Result<bool>)
    ensures r == Ok(true) <==> path !in s.faulty && path in s.folders
    ensures r == Ok(false) <==> path !in s.faulty && path !in s.folders
    ensures r.Err? <==> path in s.faulty
    ensures r.Err? ==> r.error == RemoteFailure(path)
  {
    match GetMetadata(s, path)
    case Found => Ok(true)
    case NotFound => Ok(false)
    case ProbeFailed => Err(RemoteFailure(path))
  }

  // ---------------------------------------------------------------------------
  // create_directory_at_path

  /**
   * The guard rejects any path holding a '.' with no call issued and nothing changed;
   * otherwise exactly one create call is issued, for exactly that path, which fails when
   * the service fails on the path, refuses it, or finds it already there.
   */
  function CreateDirectory(s: Remote, path: Path): (o: Outcome<()>)
    ensures o.result == Err(MalformedPath(path)) <==> '.' in path
    ensures '.' in path ==> o.after == s
    ensures '.' !in path ==>
      && o.after.log == s.log + [CreateFolder(path)]
      && (o.result.Ok? <==> path !in s.faulty && path !in s.creationRefused && path !in s.folders)
      && o.after == s.(folders := if o.result.Ok? then s.folders + {path} else s.folders,
                       log := s.log + [CreateFolder(path)])
  {
    GuardMatchesIffDot(path);
    if LooksLikeFilePath(path) then
      Outcome(s, Err(MalformedPath(path)))
    else
      var ok := path !in s.faulty && path !in s.creationRefused && path !in s.folders;
      var after := s.(folders := if ok then s.folders + {path} else s.folders,
                      log := s.log + [CreateFolder(path)]);
      Outcome(after, if ok then Ok(()) else Err(RemoteFailure(path)))
  }

  method CreateDirectoryAtPath(path: Path, dbx: Storage) returns (r: Result<()>)
    modifies dbx
    ensures dbx.State() == CreateDirectory(old(dbx.State()), path).after
    ensures r == CreateDirectory(old(dbx.State()), path).result
  {
    if LooksLikeFilePath(path) {
      return Err(MalformedPath(path));
    }
    var ok := dbx.CreateFolder(path);
    r := if ok then Ok(()) else Err(RemoteFailure(path));
  }

  // ---------------------------------------------------------------------------
  // get_directory_contents

  /** The pages' entries, concatenated in page order. */
  function Flatten(pages: seq<seq<Entry>>): seq<Entry>
    decreases |pages|
  {
    if pages == [] then [] else Flatten(pages[..|pages| - 1]) + pages[|pages| - 1]
  }

  /** The names of the file entries, in order. */
  function FileNames(entries: seq<Entry>): seq<string>
    decreases |entries|
  {
    if entries == [] then []
    else
      var last := entries[|entries| - 1];
      FileNames(entries[..|entries| - 1]) + (if last.File? then [last.name] else [])
  }

  /**
   * What get_directory_contents returns or raises for a directory: it succeeds exactly
   * on a listable directory the service does not fail on, a missing directory raises
   * not-found, and a result holds at most one name per listed entry.
   */
  function DirectoryContents(s: Remote, directory: Path): (r: Result<seq<string>>)
    ensures r.Ok? <==> directory !in s.faulty && directory in s.listings
    ensures directory !in s.faulty && directory !in s.listings ==> r == Err(SourceNotFound(directory))
    ensures r.Ok? ==> |r.value| <= |Flatten(s.listings[directory])|
  {
    if directory in s.faulty then Err(RemoteFailure(directory))
    else if directory !in s.listings then Err(SourceNotFound(directory))
    else
      FileNamesLength(Flatten(s.listings[directory]));
      Ok(FileNames(Flatten(s.listings[directory])))
  }

  lemma {:induction false} FlattenSplit(pages: seq<seq<Entry>>, i: nat)
    requires i <= |pages|
    ensures Flatten(pages) == Flatten(pages[..i]) + Flatten(pages[i..])
    decreases |pages|
  {
    if i < |pages| {
      var n := |pages|;
      FlattenSplit(pages[..n - 1], i);
      assert pages[..n - 1][..i] == pages[..i];
      assert pages[i..][..|pages[i..]| - 1] == pages[..n - 1][i..];
    } else {
      assert pages[..i] == pages;
    }
  }

  /** Page i's entries appear whole, after those of every earlier page and before every later one. */
  lemma PagesInOrder(pages: seq<seq<Entry>>, i: nat)
    requires i < |pages|
    ensures Flatten(pages) == Flatten(pages[..i]) + pages[i] + Flatten(pages[i + 1..])
  {
    FlattenSplit(pages, i);
    FlattenSplit(pages[i..], 1);
    assert pages[i..][..1] == [pages[i]];
    assert Flatten([pages[i]]) == pages[i] by {
      assert [pages[i]][..0] == [];
    }
    assert pages[i..][1..] == pages[i + 1..];
  }

  lemma {:induction false} FileNamesAppend(a: seq<Entry>, b: seq<Entry>)
    ensures FileNames(a + b) == FileNames(a) + FileNames(b)
    decreases |b|
  {
    if b != [] {
      var n := |b|;
      FileNamesAppend(a, b[..n - 1]);
      assert (a + b)[..|a + b| - 1] == a + b[..n - 1];
    } else {
      assert a + b == a;
    }
  }

  /** A name is returned exactly when a file entry of that name was listed. */
  lemma {:induction false} FileNamesMembership(entries: seq<Entry>)
    ensures forall x :: x in FileNames(entries) <==> File(x) in entries
    decreases |entries|
  {
    if entries != [] {
      var n := |entries|;
      FileNamesMembership(entries[..n - 1]);
      assert entries == entries[..n - 1] + [entries[n - 1]];
    }
  }

  /** At most one name per entry; exactly one per entry when every entry is a file. */
  lemma {:induction false} FileNamesLength(entries: seq<Entry>)
    ensures |FileNames(entries)| <= |entries|
    ensures (forall i :: 0 <= i < |entries| ==> entries[i].File?) ==> |FileNames(entries)| == |entries|
    decreases |entries|
  {
    if entries != [] {
      FileNamesLength(entries[..|entries| - 1]);
    }
  }

  /**
   * The names from a successful listing are the file names of all pages, in page order,
   * the final page included; no name stems from a non-file entry.
   */
  lemma DirectoryContentsAreListedFiles(s: Remote, directory: Path)
    requires DirectoryContents(s, directory).Ok?
    ensures var names := DirectoryContents(s, directory).value;
            var pages := s.listings[directory];
            && (forall x :: x in names <==> File(x) in Flatten(pages))
            && |names| <= |Flatten(pages)|
            && forall i :: 0 <= i < |pages| ==>
                 names == FileNames(Flatten(pages[..i])) + FileNames(pages[i]) + FileNames(Flatten(pages[i + 1..]))
  {
    var pages := s.listings[directory];
    FileNamesMembership(Flatten(pages));
    FileNamesLength(Flatten(pages));
    forall i | 0 <= i < |pages|
      ensures FileNames(Flatten(pages)) == FileNames(Flatten(pages[..i])) + FileNames(pages[i]) + FileNames(Flatten(pages[i + 1..]))
    {
      PagesInOrder(pages, i);
      FileNamesAppend(Flatten(pages[..i]) + pages[i], Flatten(pages[i + 1..]));
      FileNamesAppend(Flatten(pages[..i]), pages[i]);
    }
  }

  /** The listing raises for a missing directory instead of returning an empty list. */
  lemma MissingDirectoryRaises(s: Remote, directory: Path)
    requires directory !in s.faulty && directory !in s.listings
    ensures DirectoryContents(s, directory) == Err(SourceNotFound(directory))
    ensures DirectoryContents(s, directory) != Ok([])
  {
  }

  method GetDirectoryContents(directory: Path, dbx: Storage) returns (r: Result<seq<string>>)
    requires dbx.Valid()
    ensures r == DirectoryContents(dbx.State(), directory)
    ensures r.Ok? <==> directory !in dbx.faulty && directory in dbx.listings
    ensures r.Ok? ==> r.value == FileNames(Flatten(dbx.listings[directory]))
  {
    var s := dbx.State();
    var response := ListFolder(s, directory);
    if response.ListNotFound? {
      return Err(SourceNotFound(directory));
    } else if response.ListFailed? {
      return Err(RemoteFailure(directory));
    }
    ghost var pages := s.listings[directory];
    var folderContents := response.page;
    assert folderContents == Page(pages[0], 1 < |pages|, Cursor(directory, 1));
    var directoryContents := folderContents.entries;
    assert pages[..1] == [pages[0]];
    while folderContents.hasMore
      invariant folderContents.cursor.directory == directory
      invariant 1 <= folderContents.cursor.next <= |pages|
      invariant folderContents.hasMore <==> folderContents.cursor.next < |pages|
      invariant directoryContents == Flatten(pages[..folderContents.cursor.next])
      decreases |pages| - folderContents.cursor.next
    {
      var cursor := folderContents.cursor;
      folderContents := ListFolderContinue(s, cursor);
      assert folderContents == Page(pages[cursor.next], cursor.next + 1 < |pages|, Cursor(directory, cursor.next + 1));
      directoryContents := directoryContents + folderContents.entries;
      assert pages[..cursor.next + 1][..cursor.next] == pages[..cursor.next];
    }
    assert pages[..|pages|] == pages;

    var contentToReturn := [];
    for i := 0 to |directoryContents|
      invariant contentToReturn == FileNames(directoryContents[..i])
    {
      assert directoryContents[..i + 1][..i] == directoryContents[..i];
      if directoryContents[i].File? {
        contentToReturn := contentToReturn + [directoryContents[i].name];
      }
    }
    assert directoryContents[..|directoryContents|] == directoryContents;
    return Ok(contentToReturn);
  }

  // ---------------------------------------------------------------------------
  // move_dropbox_file

  /** One move call is issued; it fails when either end is faulty, and only the log changes. */
  function MoveFile(s: Remote, source: Path, destination: Path): (o: Outcome<()>)
    ensures o.after == s.(log := s.log + [Move(source, destination)])
    ensures o.result.Ok? <==> source !in s.faulty && destination !in s.faulty
  {
    var after := s.(log := s.log + [Move(source, destination)]);
    if source in s.faulty then Outcome(after, Err(RemoteFailure(source)))
    else if destination in s.faulty then Outcome(after, Err(RemoteFailure(destination)))
    else Outcome(after, Ok(()))
  }

  method MoveDropboxFile(source: Path, destination: Path, dbx: Storage) returns (r: Result<()>)
    modifies dbx
    ensures dbx.State() == MoveFile(old(dbx.State()), source, destination).after
    ensures r == MoveFile(old(dbx.State()), source, destination).result
  {
    var ok := dbx.Move(source, destination);
    r := if !ok && source in dbx.faulty then Err(RemoteFailure(source))
         else if !ok then Err(RemoteFailure(destination))
         else Ok(());
  }
}
