/**
 * One run of the program: list the inbox, ensure every configured destination
 * directory exists, map source files to destinations, and move them one by one.
 */
module Runner {
  import opened Errors
  import opened Paths
  import opened Config
  import opened RemoteStorage
  import opened DropboxHelper

  /** Source path to destination path, in the dictionary's iteration order. */
  type MoveMap = seq<(Path, Path)>

  /**
   * The destination factory (classification and path building), whose source is not
   * part of this model: any function of the listed names and the registry.
   */
  type Factory = (seq<string>, seq<(Category, Path)>) -> MoveMap

  // ---------------------------------------------------------------------------
  // Ensuring the destination directories

  /**
   * One iteration: probe the directory and create it only when the probe says it is
   * absent. An existing directory costs no call; at most one create call is issued,
   * only for an absent directory the service does not fail on; a success leaves the
   * directory existing; only the directories and the log can change.
   */
  function EnsureDirectory(s: Remote, directory: Path): (o: Outcome<()>)
    ensures directory in s.folders && directory !in s.faulty ==> o == Outcome(s, Ok(()))
    ensures o.after.log == s.log || o.after.log == s.log + [CreateFolder(directory)]
    ensures o.after.log != s.log ==> directory !in s.folders && directory !in s.faulty
    ensures o.result.Ok? ==> directory in o.after.folders
    ensures o.after == s.(folders := o.after.folders, log := o.after.log) && s.folders <= o.after.folders
  {
    match PathExists(s, directory)
    case Err(e) => Outcome(s, Err(e))
    case Ok(present) => if present then Outcome(s, Ok(())) else CreateDirectory(s, directory)
  }

  /**
   * The ensure loop over `dirs`, stopping at the first error. It only adds directories
   * and extends the log; the rest of the storage is unchanged.
   */
  function EnsureAll(s: Remote, dirs: seq<Path>): (o: Outcome<()>)
    ensures o.after == s.(folders := o.after.folders, log := o.after.log)
    ensures s.folders <= o.after.folders
    ensures |s.log| <= |o.after.log| && o.after.log[..|s.log|] == s.log
    decreases |dirs|
  {
    if dirs == [] then Outcome(s, Ok(()))
    else
      var before := EnsureAll(s, dirs[..|dirs| - 1]);
      if before.result.Err? then before else EnsureDirectory(before.after, dirs[|dirs| - 1])
  }

  method EnsureDirectories(dirs: seq<Path>, dbx: Storage) returns (r: Result<()>)
    modifies dbx
    ensures dbx.State() == EnsureAll(old(dbx.State()), dirs).after
    ensures r == EnsureAll(old(dbx.State()), dirs).result
  {
    for i := 0 to |dirs|
      invariant dbx.State() == EnsureAll(old(dbx.State()), dirs[..i]).after
      invariant EnsureAll(old(dbx.State()), dirs[..i]).result.Ok?
    {
      assert dirs[..i + 1][..i] == dirs[..i];
      var present := PathExists(dbx.State(), dirs[i]);
      if present.Err? {
        EnsureStopsAtError(old(dbx.State()), dirs, i + 1);
        return Err(present.error);
      }
      if !present.value {
        var created := CreateDirectoryAtPath(dirs[i], dbx);
        if created.Err? {
          EnsureStopsAtError(old(dbx.State()), dirs, i + 1);
          return created;
        }
      }
    }
    assert dirs[..|dirs|] == dirs;
    return Ok(());
  }

  /** Once a prefix of the directories fails, the rest of the loop is skipped. */
  lemma {:induction false} EnsureStopsAtError(s: Remote, dirs: seq<Path>, i: nat)
    requires i <= |dirs| && EnsureAll(s, dirs[..i]).result.Err?
    ensures EnsureAll(s, dirs) == EnsureAll(s, dirs[..i])
    decreases |dirs|
  {
    if i < |dirs| {
      var init := dirs[..|dirs| - 1];
      assert init[..i] == dirs[..i];
      EnsureStopsAtError(s, init, i);
    } else {
      assert dirs[..i] == dirs;
    }
  }

  /**
   * The ensure loop only appends create calls, each for a listed directory that was
   * neither present nor faulty at the start; the directories gained are exactly those
   * created whose creation the service did not refuse, and nothing else about the
   * storage changes.
   */
  lemma {:induction false} EnsureCreatesOnlyMissing(s: Remote, dirs: seq<Path>)
    ensures var t := EnsureAll(s, dirs).after;
      && t.faulty == s.faulty && t.creationRefused == s.creationRefused && t.listings == s.listings
      && |s.log| <= |t.log| && t.log[..|s.log|] == s.log
      && (forall i :: |s.log| <= i < |t.log| ==>
            && t.log[i].CreateFolder?
            && t.log[i].path in dirs
            && t.log[i].path !in s.folders
            && t.log[i].path !in s.faulty)
      && (forall p :: p in t.folders <==> p in s.folders || (CreateFolder(p) in t.log[|s.log|..] && p !in s.creationRefused))
    decreases |dirs|
  {
    if dirs != [] {
      var n := |dirs|;
      var init := dirs[..n - 1];
      EnsureCreatesOnlyMissing(s, init);
      var before := EnsureAll(s, init);
      var u := before.after;
      if before.result.Ok? {
        var d := dirs[n - 1];
        var t := EnsureDirectory(u, d).after;
        if t.log != u.log {
          assert t.log == u.log + [CreateFolder(d)];
          assert t.log[|s.log|..] == u.log[|s.log|..] + [CreateFolder(d)];
          assert t.folders == if d in s.creationRefused then u.folders else u.folders + {d};
        }
      }
    }
  }

  /** After a successful ensure loop every listed directory exists and is not faulty. */
  lemma {:induction false} EnsureEstablishes(s: Remote, dirs: seq<Path>)
    requires EnsureAll(s, dirs).result.Ok?
    ensures forall d :: d in dirs ==> d in EnsureAll(s, dirs).after.folders && d !in EnsureAll(s, dirs).after.faulty
    decreases |dirs|
  {
    if dirs != [] {
      var n := |dirs|;
      var init := dirs[..n - 1];
      EnsureEstablishes(s, init);
      var u := EnsureAll(s, init).after;
      var t := EnsureDirectory(u, dirs[n - 1]).after;
      assert u.folders <= t.folders && t.faulty == u.faulty;
      assert dirs == init + [dirs[n - 1]];
    }
  }

  /** On a storage where every listed directory already exists, the ensure loop does nothing. */
  lemma {:induction false} EnsureNoop(s: Remote, dirs: seq<Path>)
    requires forall d :: d in dirs ==> d in s.folders && d !in s.faulty
    ensures EnsureAll(s, dirs) == Outcome(s, Ok(()))
    decreases |dirs|
  {
    if dirs != [] {
      EnsureNoop(s, dirs[..|dirs| - 1]);
    }
  }

  /** Ensuring is idempotent: a second pass over the resulting storage creates nothing. */
  lemma EnsureIdempotent(s: Remote, dirs: seq<Path>)
    requires EnsureAll(s, dirs).result.Ok?
    ensures EnsureAll(EnsureAll(s, dirs).after, dirs) == Outcome(EnsureAll(s, dirs).after, Ok(()))
  {
    EnsureEstablishes(s, dirs);
    EnsureNoop(EnsureAll(s, dirs).after, dirs);
  }

  /**
   * A directory the ensure loop can settle: the service does not fail on it, and it
   * either exists already or may be created.
   */
  predicate Ensurable(s: Remote, directory: Path) {
    directory !in s.faulty && (directory in s.folders || directory !in s.creationRefused)
  }

  /**
   * For directories that pass the guard, the ensure loop succeeds exactly when every
   * directory is ensurable: it fails when a probe fails, or when an absent directory's
   * creation is refused, and then only with a remote error.
   */
  lemma {:induction false} EnsureSucceedsIffEnsurable(s: Remote, dirs: seq<Path>)
    requires forall d :: d in dirs ==> '.' !in d
    ensures EnsureAll(s, dirs).result.Ok? <==> forall d :: d in dirs ==> Ensurable(s, d)
    ensures EnsureAll(s, dirs).result.Err? ==> EnsureAll(s, dirs).result.error.RemoteFailure?
    decreases |dirs|
  {
    if dirs != [] {
      var n := |dirs|;
      var init := dirs[..n - 1];
      var last := dirs[n - 1];
      EnsureSucceedsIffEnsurable(s, init);
      EnsureCreatesOnlyMissing(s, init);
      assert dirs == init + [last];
      var u := EnsureAll(s, init).after;
      if EnsureAll(s, init).result.Ok? {
        assert EnsureAll(s, dirs) == EnsureDirectory(u, last);
        assert EnsureDirectory(u, last).result.Ok? <==> Ensurable(u, last);
        assert Ensurable(u, last) <==> Ensurable(s, last);
      }
    }
  }

  // ---------------------------------------------------------------------------
  // Moving the files

  predicate MoveFails(faulty: set<Path>, pair: (Path, Path)) {
    pair.0 in faulty || pair.1 in faulty
  }

  /** The index of the first pair whose move fails, or |pairs| when none does. */
  function FirstFailure(faulty: set<Path>, pairs: MoveMap): (k: nat)
    ensures k <= |pairs|
    ensures forall i :: 0 <= i < k ==> !MoveFails(faulty, pairs[i])
    ensures k < |pairs| ==> MoveFails(faulty, pairs[k])
    decreases |pairs|
  {
    if pairs == [] then 0
    else
      var k := FirstFailure(faulty, pairs[..|pairs| - 1]);
      if k < |pairs| - 1 then k
      else if MoveFails(faulty, pairs[|pairs| - 1]) then |pairs| - 1
      else |pairs|
  }

  /** The move calls for `pairs`, in order. */
  function MoveCalls(pairs: MoveMap): seq<Call>
    decreases |pairs|
  {
    if pairs == [] then [] else MoveCalls(pairs[..|pairs| - 1]) + [Move(pairs[|pairs| - 1].0, pairs[|pairs| - 1].1)]
  }

  /**
   * The move loop: one move per pair, in order, recording each; the first failure stops
   * it. Only the log changes, and a success records one entry per pair.
   */
  function MoveAll(s: Remote, pairs: MoveMap): (o: Outcome<MoveMap>)
    ensures o.after == s.(log := o.after.log)
    ensures o.result.Ok? ==> |o.result.value| == |pairs|
    decreases |pairs|
  {
    if pairs == [] then Outcome(s, Ok([]))
    else
      var before := MoveAll(s, pairs[..|pairs| - 1]);
      var last := pairs[|pairs| - 1];
      if before.result.Err? then before
      else
        var moved := MoveFile(before.after, last.0, last.1);
        if moved.result.Err? then Outcome(moved.after, Err(moved.result.error))
        else Outcome(moved.after, Ok(before.result.value + [last]))
  }

  method MoveFiles(sourceToDest: MoveMap, dbx: Storage) returns (r: Result<MoveMap>)
    modifies dbx
    ensures dbx.State() == MoveAll(old(dbx.State()), sourceToDest).after
    ensures r == MoveAll(old(dbx.State()), sourceToDest).result
  {
    var movedFiles := [];
    for i := 0 to |sourceToDest|
      invariant dbx.State() == MoveAll(old(dbx.State()), sourceToDest[..i]).after
      invariant MoveAll(old(dbx.State()), sourceToDest[..i]).result == Ok(movedFiles)
    {
      assert sourceToDest[..i + 1][..i] == sourceToDest[..i];
      var (source, dest) := sourceToDest[i];
      var moved := MoveDropboxFile(source, dest, dbx);
      if moved.Err? {
        MovesStopAtError(old(dbx.State()), sourceToDest, i + 1);
        return Err(moved.error);
      }
      movedFiles := movedFiles + [(source, dest)];
    }
    assert sourceToDest[..|sourceToDest|] == sourceToDest;
    return Ok(movedFiles);
  }

  /** Once a prefix of the pairs fails, no later pair is moved. */
  lemma {:induction false} MovesStopAtError(s: Remote, pairs: MoveMap, i: nat)
    requires i <= |pairs| && MoveAll(s, pairs[..i]).result.Err?
    ensures MoveAll(s, pairs) == MoveAll(s, pairs[..i])
    decreases |pairs|
  {
    if i < |pairs| {
      var init := pairs[..|pairs| - 1];
      assert init[..i] == pairs[..i];
      MovesStopAtError(s, init, i);
    } else {
      assert pairs[..i] == pairs;
    }
  }

  /**
   * The move loop issues the moves of pairs[..k] and of the failing pair k, where k is
   * the first failing pair, and nothing after it; earlier moves stay. On success it
   * records every pair, with its own source and destination, in order. Only the log
   * changes.
   */
  lemma {:induction false} MovesStopAtFirstFailure(s: Remote, pairs: MoveMap)
    ensures var o := MoveAll(s, pairs);
            var k := FirstFailure(s.faulty, pairs);
      && (o.result.Ok? <==> k == |pairs|)
      && (o.result.Ok? ==> o.result.value == pairs)
      && o.after == s.(log := s.log + MoveCalls(pairs[..if k < |pairs| then k + 1 else k]))
    decreases |pairs|
  {
    if pairs != [] {
      var n := |pairs|;
      var init := pairs[..n - 1];
      MovesStopAtFirstFailure(s, init);
      var k' := FirstFailure(s.faulty, init);
      if k' < n - 1 {
        assert FirstFailure(s.faulty, pairs) == k';
        assert MoveAll(s, pairs) == MoveAll(s, init);
        assert pairs[..k' + 1] == init[..k' + 1];
      } else {
        assert init[..k'] == init;
        MoveLastPair(s, pairs);
        assert MoveAll(s, pairs).after == s.(log := MoveAll(s, pairs).after.log);
      }
    }
  }

  /** When every pair but the last has moved, the loop's outcome is decided by the last move. */
  lemma MoveLastPair(s: Remote, pairs: MoveMap)
    requires pairs != []
    requires MoveAll(s, pairs[..|pairs| - 1]).result == Ok(pairs[..|pairs| - 1])
    requires MoveAll(s, pairs[..|pairs| - 1]).after.log == s.log + MoveCalls(pairs[..|pairs| - 1])
    requires FirstFailure(s.faulty, pairs[..|pairs| - 1]) == |pairs| - 1
    ensures var o := MoveAll(s, pairs);
            var k := FirstFailure(s.faulty, pairs);
      && (o.result.Ok? <==> k == |pairs|)
      && (o.result.Ok? ==> o.result.value == pairs)
      && o.after.log == s.log + MoveCalls(pairs[..if k < |pairs| then k + 1 else k])
  {
    var n := |pairs|;
    var init := pairs[..n - 1];
    var last := pairs[n - 1];
    var before := MoveAll(s, init);
    var moved := MoveFile(before.after, last.0, last.1);
    assert MoveAll(s, pairs).after == moved.after;
    assert moved.after.log == s.log + MoveCalls(init) + [Move(last.0, last.1)];
    assert MoveCalls(pairs) == MoveCalls(init) + [Move(last.0, last.1)];
    assert pairs[..n] == pairs;
    if MoveFails(s.faulty, last) {
      assert FirstFailure(s.faulty, pairs) == n - 1;
      assert MoveAll(s, pairs).result.Err?;
    } else {
      assert FirstFailure(s.faulty, pairs) == n;
      assert MoveAll(s, pairs).result == Ok(init + [last]);
      assert init + [last] == pairs;
    }
  }

  // ---------------------------------------------------------------------------
  // The whole run

  /**
   * What a run does to the storage and what it ends with: the moved pairs or an error.
   * A failed listing changes nothing; a run never removes a directory and changes
   * nothing but the directories and the log.
   */
  function RunOutcome(year: nat, s: Remote, factory: Factory): (o: Outcome<MoveMap>)
    ensures DirectoryContents(s, SOURCE_DIR).Err? ==> o == Outcome(s, Err(DirectoryContents(s, SOURCE_DIR).error))
    ensures o.after == s.(folders := o.after.folders, log := o.after.log)
    ensures s.folders <= o.after.folders
  {
    match DirectoryContents(s, SOURCE_DIR)
    case Err(e) => Outcome(s, Err(e))
    case Ok(sourceFiles) =>
      var ensured := EnsureAll(s, DestinationDirs(year));
      if ensured.result.Err? then Outcome(ensured.after, Err(ensured.result.error))
      else MoveAll(ensured.after, factory(sourceFiles, CategoryToPathMap(year)))
  }

  method Run(year: nat, dbx: Storage, factory: Factory) returns (r: Result<MoveMap>)
    requires dbx.Valid()
    modifies dbx
    ensures dbx.State() == RunOutcome(year, old(dbx.State()), factory).after
    ensures r == RunOutcome(year, old(dbx.State()), factory).result
  {
    var sourceFiles := GetDirectoryContents(SOURCE_DIR, dbx);
    if sourceFiles.Err? {
      return Err(sourceFiles.error);
    }
    var ensured := EnsureDirectories(DestinationDirs(year), dbx);
    if ensured.Err? {
      return Err(ensured.error);
    }
    var sourceToDestMap := factory(sourceFiles.value, CategoryToPathMap(year));
    r := MoveFiles(sourceToDestMap, dbx);
  }

  /** Every configured directory passes the creation guard, whatever the year. */
  lemma ConfiguredDirsPassGuard(year: nat)
    ensures forall d :: d in DestinationDirs(year) ==> !LooksLikeFilePath(d)
  {
    DestinationDirsWellFormed(year);
    forall d | d in DestinationDirs(year)
      ensures !LooksLikeFilePath(d)
    {
      GuardMatchesIffDot(d);
    }
  }

  /**
   * Once the listing succeeds, the ensure stage covers every configured directory no
   * matter which files were listed or what the factory maps: the run reaches the move
   * stage exactly when every configured directory is ensurable, and from then on every
   * configured directory exists.
   */
  lemma EnsureStageCoversRegistry(year: nat, s: Remote, factory: Factory)
    requires DirectoryContents(s, SOURCE_DIR).Ok?
    ensures var ensured := EnsureAll(s, DestinationDirs(year));
      && (ensured.result.Ok? <==> forall d :: d in DestinationDirs(year) ==> Ensurable(s, d))
      && (ensured.result.Ok? ==> forall d :: d in DestinationDirs(year) ==> d in RunOutcome(year, s, factory).after.folders)
  {
    var dirs := DestinationDirs(year);
    DestinationDirsWellFormed(year);
    EnsureSucceedsIffEnsurable(s, dirs);
    var ensured := EnsureAll(s, dirs);
    if ensured.result.Ok? {
      EnsureEstablishes(s, dirs);
      MovesStopAtFirstFailure(ensured.after, factory(DirectoryContents(s, SOURCE_DIR).value, CategoryToPathMap(year)));
    }
  }

  /**
   * The stages run in order: a failed listing issues no call at all; otherwise every
   * create call of the run precedes every move call, moves are issued only after the
   * ensure stage succeeded, and the earlier log is kept.
   */
  lemma RunStagesInOrder(year: nat, s: Remote, factory: Factory)
    ensures var o := RunOutcome(year, s, factory);
      && (DirectoryContents(s, SOURCE_DIR).Err? ==> o == Outcome(s, Err(DirectoryContents(s, SOURCE_DIR).error)))
      && |s.log| <= |o.after.log| && o.after.log[..|s.log|] == s.log
      && (forall i, j :: |s.log| <= i < j < |o.after.log| && o.after.log[i].Move? ==> o.after.log[j].Move?)
      && (forall i :: |s.log| <= i < |o.after.log| && o.after.log[i].Move? ==> EnsureAll(s, DestinationDirs(year)).result.Ok?)
  {
    var dirs := DestinationDirs(year);
    var o := RunOutcome(year, s, factory);
    EnsureCreatesOnlyMissing(s, dirs);
    var ensured := EnsureAll(s, dirs);
    var t := ensured.after;
    if DirectoryContents(s, SOURCE_DIR).Err? {
      assert o.after == s;
    } else if ensured.result.Err? {
      assert o.after == t;
    } else {
      var pairs := factory(DirectoryContents(s, SOURCE_DIR).value, CategoryToPathMap(year));
      assert o == MoveAll(t, pairs);
      MovesStopAtFirstFailure(t, pairs);
      var k := FirstFailure(t.faulty, pairs);
      var issued := pairs[..if k < |pairs| then k + 1 else k];
      MoveCallsAreMoves(issued);
      assert o.after.log == t.log + MoveCalls(issued);
      CreatesBeforeMoves(|s.log|, t.log, MoveCalls(issued));
    }
  }

  lemma CreatesBeforeMoves(start: nat, creates: seq<Call>, moves: seq<Call>)
    requires start <= |creates|
    requires forall i :: start <= i < |creates| ==> creates[i].CreateFolder?
    requires forall i :: 0 <= i < |moves| ==> moves[i].Move?
    ensures forall i, j :: start <= i < j < |creates + moves| && (creates + moves)[i].Move? ==> (creates + moves)[j].Move?
  {
  }

  lemma {:induction false} MoveCallsAreMoves(pairs: MoveMap)
    ensures |MoveCalls(pairs)| == |pairs|
    ensures forall i :: 0 <= i < |pairs| ==> MoveCalls(pairs)[i] == Move(pairs[i].0, pairs[i].1)
    decreases |pairs|
  {
    if pairs != [] {
      MoveCallsAreMoves(pairs[..|pairs| - 1]);
    }
  }

  /**
   * A successful run moved exactly the factory's pairs, in the map's order, each with
   * its own source and destination, after creating only configured directories that
   * were missing.
   */
  lemma SuccessfulRunMovesEveryPair(year: nat, s: Remote, factory: Factory)
    requires RunOutcome(year, s, factory).result.Ok?
    ensures DirectoryContents(s, SOURCE_DIR).Ok?
    ensures var pairs := factory(DirectoryContents(s, SOURCE_DIR).value, CategoryToPathMap(year));
            var o := RunOutcome(year, s, factory);
      && o.result.value == pairs
      && o.after.log == EnsureAll(s, DestinationDirs(year)).after.log + MoveCalls(pairs)
      && forall d :: d in DestinationDirs(year) ==> d in o.after.folders
  {
    var dirs := DestinationDirs(year);
    var ensured := EnsureAll(s, dirs);
    var pairs := factory(DirectoryContents(s, SOURCE_DIR).value, CategoryToPathMap(year));
    EnsureEstablishes(s, dirs);
    MovesStopAtFirstFailure(ensured.after, pairs);
    assert pairs[..|pairs|] == pairs;
  }

  /** Runs keep no memory but the storage: after a successful run the next run's ensure stage creates nothing. */
  lemma SecondRunCreatesNothing(year: nat, s: Remote, factory: Factory)
    requires RunOutcome(year, s, factory).result.Ok?
    ensures var t := RunOutcome(year, s, factory).after;
            EnsureAll(t, DestinationDirs(year)) == Outcome(t, Ok(()))
  {
    var dirs := DestinationDirs(year);
    var ensured := EnsureAll(s, dirs);
    var pairs := factory(DirectoryContents(s, SOURCE_DIR).value, CategoryToPathMap(year));
    EnsureEstablishes(s, dirs);
    MovesStopAtFirstFailure(ensured.after, pairs);
    EnsureNoop(RunOutcome(year, s, factory).after, dirs);
  }
}
