/**
 * The remote storage service, abstracted. Its state is the set of existing
 * directories, the log of mutating calls issued to it, the paths on which it
 * answers every request with an error other than "not found", the paths on
 * which it refuses to create a folder (permissions, say) although a lookup
 * reports them missing, and, for each listable directory, its listing split
 * into the pages the service hands out.
 */
module RemoteStorage {
  import opened Paths

  /** A listed object: file metadata, or any other kind (folder, deleted entry). */
  datatype Entry = File(name: string) | Other(name: string)

  /** Where a listing continues: the directory and the index of the next page. */
  datatype Cursor = Cursor(directory: Path, next: nat)

  datatype Page = Page(entries: seq<Entry>, hasMore: bool, cursor: Cursor)

  datatype ListResponse = Listed(page: Page) | ListNotFound | ListFailed

  /** The closed outcome of a metadata lookup. */
  datatype Probe = Found | NotFound | ProbeFailed

  /** A mutating call issued to the service. */
  datatype Call = CreateFolder(path: Path) | Move(source: Path, destination: Path)

  datatype Remote = Remote(
    folders: set<Path>,
    faulty: set<Path>,
    creationRefused: set<Path>,
    listings: map<Path, seq<seq<Entry>>>,
    log: seq<Call>)

  /** A listing always has at least one (possibly empty) page. */
  predicate WellFormed(s: Remote) {
    forall d :: d in s.listings ==> s.listings[d] != []
  }

  /** files_get_metadata, reduced to its outcome. */
  function GetMetadata(s: Remote, path: Path): Probe {
    if path in s.faulty then ProbeFailed
    else if path in s.folders then Found
    else NotFound
  }

  /** files_list_folder: the first page of a directory's listing. */
  function ListFolder(s: Remote, directory: Path): ListResponse
    requires WellFormed(s)
  {
    if directory in s.faulty then ListFailed
    else if directory !in s.listings then ListNotFound
    else
      var pages := s.listings[directory];
      Listed(Page(pages[0], 1 < |pages|, Cursor(directory, 1)))
  }

  /** files_list_folder_continue: the page a cursor points at. */
  function ListFolderContinue(s: Remote, cursor: Cursor): Page
    requires cursor.directory in s.listings && cursor.next < |s.listings[cursor.directory]|
  {
    var pages := s.listings[cursor.directory];
    Page(pages[cursor.next], cursor.next + 1 < |pages|, Cursor(cursor.directory, cursor.next + 1))
  }

  class Storage {
    var folders: set<Path>
    const faulty: set<Path>
    const creationRefused: set<Path>
    const listings: map<Path, seq<seq<Entry>>>
    var log: seq<Call>

    function State(): Remote
      reads this
    {
      Remote(folders, faulty, creationRefused, listings, log)
    }

    predicate Valid()
      reads this
    {
      WellFormed(State())
    }

    constructor (folders: set<Path>, faulty: set<Path>, creationRefused: set<Path>, listings: map<Path, seq<seq<Entry>>>)
      requires WellFormed(Remote(folders, faulty, creationRefused, listings, []))
      ensures Valid()
      ensures State() == Remote(folders, faulty, creationRefused, listings, [])
    {
      this.folders := folders;
      this.faulty := faulty;
      this.creationRefused := creationRefused;
      this.listings := listings;
      this.log := [];
    }

    /** files_create_folder: fails on a faulty path, a refused one, and one that already exists. */
    method CreateFolder(path: Path) returns (ok: bool)
      modifies this
      ensures ok <==> path !in faulty && path !in creationRefused && path !in old(folders)
      ensures folders == if ok then old(folders) + {path} else old(folders)
      ensures log == old(log) + [Call.CreateFolder(path)]
    {
      ok := path !in faulty && path !in creationRefused && path !in folders;
      if ok {
        folders := folders + {path};
      }
      log := log + [Call.CreateFolder(path)];
    }

    /** files_move: fails when either end is faulty; directories are untouched. */
    method Move(source: Path, destination: Path) returns (ok: bool)
      modifies this
      ensures ok <==> source !in faulty && destination !in faulty
      ensures folders == old(folders)
      ensures log == old(log) + [Call.Move(source, destination)]
    {
      ok := source !in faulty && destination !in faulty;
      log := log + [Call.Move(source, destination)];
    }
  }
}
