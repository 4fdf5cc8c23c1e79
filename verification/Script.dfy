/** Whole runs: the engine behaves and answers like the file system of maps, closing and reopening included. */
module Scripts {
  import opened Wrappers
  import opened Bytes
  import opened Sources
  import opened Names
  import opened Entries
  import opened FileTable
  import opened Coverages
  import opened Layouts
  import opened Frames
  import opened States
  import opened Removals
  import opened Reopening
  import opened FileReaders
  import opened Archives
  import opened Paths
  import opened Routes
  import opened PathReading
  import opened FileSystems
  import opened PathWriting

  // -- What a command may need -------------------------------------------------------------------

  /** How many items a command may create. */
  function NewItems(command: Command): nat {
    match command
    case MakeDir(_, _, _) => 1
    case MakeFile(_, _, _, _) => 1
    case EnsureDirAt(path, _) => |Split(path)|
    case MakeDirAt(path, _, _) => |Split(path)|
    case WriteAt(path, _, _, _) => |Split(path)|
    case MakeFileAt(path, _, _, _) => |Split(path)|
    case UpdateAt(path, _, _, _) => |Split(path)|
    case _ => 0
  }

  function NewBytes(command: Command): nat {
    match command
    case MakeFile(_, _, _, content) => |content|
    case Replace(_, _, content) => |content|
    case WriteAt(_, _, content, _) => |content|
    case MakeFileAt(_, _, content, _) => |content|
    case UpdateAt(_, _, content, _) => |content|
    case _ => 0
  }

  function AllNewItems(commands: seq<Command>): nat {
    if commands == [] then 0 else AllNewItems(commands[..|commands| - 1]) + NewItems(commands[|commands| - 1])
  }

  function AllNewBytes(commands: seq<Command>): nat {
    if commands == [] then 0 else AllNewBytes(commands[..|commands| - 1]) + NewBytes(commands[|commands| - 1])
  }

  /** The commands one after the other: the file system at the end, and all the answers. */
  ghost function PerformAll(fs: FileSystem, commands: seq<Command>): (FileSystem, seq<Outcome>) {
    if commands == [] then (fs, [])
    else
      var (fs1, outcomes) := PerformAll(fs, commands[..|commands| - 1]);
      var (fs2, outcome) := Perform(fs1, commands[|commands| - 1]);
      (fs2, outcomes + [outcome])
  }

  // -- Each operation by identifier --------------------------------------------------------------

  function MadeOrRefused(r: Result<Id, ArchiveError>): Outcome {
    match r
    case Ok(id) => Made(id)
    case Err(error) => Refused(error)
  }

  function DoneOrRefused<T>(r: Result<T, ArchiveError>): Outcome {
    match r
    case Ok(_) => Done
    case Err(error) => Refused(error)
  }

  function ContentOrRefused(r: Result<seq<Byte>, ArchiveError>): Outcome {
    match r
    case Ok(bytes) => Content(bytes)
    case Err(error) => Refused(error)
  }

  lemma MadeDir(st: State, st': State, r: Result<Id, ArchiveError>, parentDir: DirRef, name: Name, modifTime: U64)
    requires 0 < st.nextId < U64_LIMIT
    requires NameCheck(st.dirs, st.files, name, parentDir).Err? ==>
               r == Err(NameCheck(st.dirs, st.files, name, parentDir).error) && st' == st
    requires NameCheck(st.dirs, st.files, name, parentDir).Ok? ==>
               && r == Ok(st.nextId) && st'.nextId == st.nextId + 1 && SameFiles(st, st')
               && st'.dirs == st.dirs[st.nextId := Directory(st.nextId, parentDir, name, modifTime)]
    ensures (View(st'), MadeOrRefused(r)) == Perform(View(st), MakeDir(parentDir, name, modifTime))
  {
    hide NameCheck, View, Admit, WithDir, SameFiles;
    AdmitIsNameCheck(st, parentDir, name);
    if NameCheck(st.dirs, st.files, name, parentDir).Ok? {
      DirViewed(st, st', parentDir, name, modifTime);
    }
  }

  lemma MadeFile(st: State, st': State, r: Result<Id, ArchiveError>, parentDir: DirRef, name: Name, modifTime: U64,
                 content: seq<Byte>)
    requires 0 < st.nextId < U64_LIMIT
    requires NameCheck(st.dirs, st.files, name, parentDir).Err? ==>
               r == Err(NameCheck(st.dirs, st.files, name, parentDir).error) && st' == st
    requires NameCheck(st.dirs, st.files, name, parentDir).Ok? ==>
               && r == Ok(st.nextId) && st'.nextId == st.nextId + 1 && st'.dirs == st.dirs
               && st.nextId in st'.files && st'.files == st.files[st.nextId := st'.files[st.nextId]]
               && st'.files[st.nextId].parentDir == parentDir && st'.files[st.nextId].name == name
               && st'.files[st.nextId].modifTime == modifTime
               && Contents(st'.disk, st'.files) == Contents(st.disk, st.files)[st.nextId := content]
    ensures (View(st'), MadeOrRefused(r)) == Perform(View(st), MakeFile(parentDir, name, modifTime, content))
  {
    hide NameCheck, View, Admit, WithFile, Contents;
    AdmitIsNameCheck(st, parentDir, name);
    if NameCheck(st.dirs, st.files, name, parentDir).Ok? {
      FileViewed(st, st', parentDir, name, modifTime, content);
    }
  }

  lemma Rewritten(st: State, st': State, r: Result<(), ArchiveError>, id: Id, modifTime: U64, content: seq<Byte>)
    requires id !in st.files ==> r == Err(ArchiveError.FileNotFound) && st' == st
    requires id in st.files ==>
               && r.Ok? && id in st'.files && st'.nextId == st.nextId && st'.dirs == st.dirs
               && st'.files == st.files[id := st'.files[id]]
               && st'.files[id].parentDir == st.files[id].parentDir && st'.files[id].name == st.files[id].name
               && st'.files[id].modifTime == modifTime
               && Contents(st'.disk, st'.files) == Contents(st.disk, st.files)[id := content]
    ensures (View(st'), DoneOrRefused(r)) == Perform(View(st), Replace(id, modifTime, content))
  {
    hide Blob, FileViews;
    ViewsKeys(st.files, Contents(st.disk, st.files));
    if id in st.files {
      ReplacedView(st, st', id, modifTime, content);
    }
  }

  lemma NamedDir(st: State, st': State, r: Result<(), ArchiveError>, id: Id, name: Name)
    requires id !in st.dirs ==> r == Err(DirectoryNotFound)
    requires id in st.dirs ==> r == NameCheck(st.dirs, st.files, name, st.dirs[id].parentDir)
    requires r.Err? ==> st' == st
    requires r.Ok? ==> st'.dirs == st.dirs[id := st.dirs[id].(name := name)] && st'.nextId == st.nextId && SameFiles(st, st')
    ensures (View(st'), DoneOrRefused(r)) == Perform(View(st), NameDir(id, name))
  {
    hide NameCheck, Admit, Contents, FileViews;
    if id in st.dirs {
      AdmitIsNameCheck(st, st.dirs[id].parentDir, name);
    }
  }

  lemma NamedFile(st: State, st': State, r: Result<(), ArchiveError>, id: Id, name: Name)
    requires id !in st.files ==> r == Err(ArchiveError.FileNotFound)
    requires id in st.files ==> r == NameCheck(st.dirs, st.files, name, st.files[id].parentDir)
    requires r.Err? ==> st' == st
    requires r.Ok? ==>
               && st'.files == st.files[id := st.files[id].(name := name)] && st'.nextId == st.nextId
               && st'.dirs == st.dirs && Contents(st'.disk, st'.files) == Contents(st.disk, st.files)
    ensures (View(st'), DoneOrRefused(r)) == Perform(View(st), NameFile(id, name))
  {
    hide NameCheck, Admit, Blob, FileViews;
    var contents := Contents(st.disk, st.files);
    ViewsKeys(st.files, contents);
    if id in st.files {
      ViewOfFile(st.files, contents, id);
      AdmitIsNameCheck(st, st.files[id].parentDir, name);
      assert contents == contents[id := contents[id]];
      ViewsSet(st.files, contents, id, st.files[id].(name := name), contents[id]);
    }
  }

  lemma ViewOfFile(files: Files, contents: map<Id, seq<Byte>>, id: Id)
    requires contents.Keys == files.Keys && id in files
    ensures id in FileViews(files, contents)
    ensures FileViews(files, contents)[id] ==
            FileView(files[id].parentDir, files[id].name, files[id].modifTime, contents[id])
  {
  }

  lemma Dropped(st: State, st': State, r: Result<Directory, ArchiveError>, id: Id)
    requires id !in st.dirs ==> r == Err(DirectoryNotFound) && st' == st
    requires id in st.dirs ==> r.Ok? && PrunedBy(st, st', [id]) && Shrunk(st, st')
    ensures (View(st'), DoneOrRefused(r)) == Perform(View(st), DropDir(id))
  {
    hide PrunedBy, Shrunk, Pruned, Contents, FileViews;
    if id in st.dirs {
      DroppedDir(st, st', id);
    }
  }

  lemma DroppedOneFile(st: State, st': State, r: Result<File, ArchiveError>, id: Id)
    requires id !in st.files ==> r == Err(ArchiveError.FileNotFound) && st' == st
    requires id in st.files ==>
               && r.Ok? && st'.files == st.files - {id} && st'.nextId == st.nextId && st'.dirs == st.dirs
               && Contents(st'.disk, st'.files) == Contents(st.disk, st.files) - {id}
    ensures (View(st'), DoneOrRefused(r)) == Perform(View(st), DropFile(id))
  {
    hide Blob, FileViews;
    ViewsKeys(st.files, Contents(st.disk, st.files));
    if id in st.files {
      DroppedFile(st, st', id);
    }
  }

  lemma Fetched(st: State, r: Result<seq<Byte>, ArchiveError>, id: Id)
    requires r == if id in st.files then Ok(Contents(st.disk, st.files)[id]) else Err(ArchiveError.FileNotFound)
    ensures (View(st), ContentOrRefused(r)) == Perform(View(st), Fetch(id))
  {
    hide Blob;
  }

  lemma FetchedAt(st: State, sha3: Hash, path: Utf8String)
    requires Inv(st, sha3)
    ensures match ItemAtPath(st.dirs, st.files, path)
            case Some(AtFile(id)) =>
              id in st.files ==> Perform(View(st), FetchAt(path)) == (View(st), Content(Contents(st.disk, st.files)[id]))
            case _ => Perform(View(st), FetchAt(path)) == (View(st), RefusedAt(NoFileAt(path)))
  {
    hide Inv, ItemAtPath, FindAt, Blob;
    LookedUp(st, sha3, path);
  }

  lemma Reopened(st: State, st': State)
    requires st' == st.(nextId := st'.nextId) && IsNextId(st.dirs.Keys + st.files.Keys, st'.nextId)
    ensures (View(st'), Done) == Perform(View(st), CloseAndOpen)
  {
    hide IsNextId, Blob, NextAfter, FileViews;
    ViewsKeys(st.files, Contents(st.disk, st.files));
    assert View(st).files.Keys == st.files.Keys;
    NextAfterIs(st.dirs.Keys + st.files.Keys, st'.nextId);
  }

  lemma NextAfterIs(ids: set<Id>, n: nat)
    requires IsNextId(ids, n)
    ensures NextAfter(ids) == n
  {
    hide IsNextId;
    NextIdUnique(ids, NextAfter(ids), n);
  }

  // -- Runs --------------------------------------------------------------------------------------

  predicate ByPath(command: Command) {
    || command.EnsureDirAt? || command.MakeDirAt? || command.WriteAt? || command.MakeFileAt? || command.UpdateAt?
    || command.DropDirAt? || command.DropFileAt? || command.FetchAt?
  }

  predicate Creates(command: Command) {
    command.MakeDir? || command.MakeFile?
  }

  predicate Changes(command: Command) {
    command.Replace? || command.NameDir? || command.NameFile?
  }

  /** Carries out a command that creates an item in a directory. */
  method ExecuteCreation(archive: Archive, command: Command) returns (outcome: Outcome)
    requires archive.Valid() && archive.HasRoom(NewItems(command), NewBytes(command))
    requires Creates(command)
    modifies archive, archive.source, archive.coverage
    ensures archive.Valid() && (View(archive.State()), outcome) == Perform(View(old(archive.State())), command)
    ensures Grew(old(archive.State()), archive.State(), SegmentRoom(archive.conf), NewItems(command), NewBytes(command))
  {
    hide Inv, View, Perform, NameCheck, Contents, SegmentRoom, PrunedBy, Shrunk, ItemAdded, ItemRewritten, ItemRenamed,
      ItemCleared, RoomMade, ContentPlaced, Allotted, Grew, SameFiles;
    ghost var st := archive.State();
    match command {
      case MakeDir(parentDir, name, modifTime) =>
        var r := archive.CreateDir(parentDir, name, modifTime);
        SameFilesUnless(st, archive.State(), r.Ok?);
        MadeDir(st, archive.State(), r, parentDir, name, modifTime);
        outcome := MadeOrRefused(r);
      case MakeFile(parentDir, name, modifTime, content) =>
        var r := archive.CreateFile(parentDir, name, modifTime, content);
        MadeFile(st, archive.State(), r, parentDir, name, modifTime, content);
        outcome := MadeOrRefused(r);
    }
    GrewOne(st, archive.State(), SegmentRoom(archive.conf), NewBytes(command));
  }

  lemma SameFilesUnless(st: State, st': State, done: bool)
    requires done ==> st'.files == st.files && Contents(st'.disk, st'.files) == Contents(st.disk, st.files)
    ensures done ==> SameFiles(st, st')
  {
  }

  lemma GrewOne(st: State, st': State, room: nat, bytes: nat)
    requires st'.nextId <= st.nextId + 1 && |st'.disk| <= |st.disk| + room + bytes
    ensures Grew(st, st', room, 1, bytes)
  {
  }

  /** Carries out a command that changes an item. */
  method ExecuteChange(archive: Archive, command: Command) returns (outcome: Outcome)
    requires archive.Valid() && archive.HasRoom(NewItems(command), NewBytes(command))
    requires Changes(command)
    modifies archive, archive.source, archive.coverage
    ensures archive.Valid() && (View(archive.State()), outcome) == Perform(View(old(archive.State())), command)
    ensures Grew(old(archive.State()), archive.State(), SegmentRoom(archive.conf), NewItems(command), NewBytes(command))
  {
    hide Inv, View, Perform, NameCheck, Contents, SegmentRoom, PrunedBy, Shrunk, ItemAdded, ItemRewritten, ItemRenamed,
      ItemCleared, RoomMade, ContentPlaced, Allotted, Grew, SameFiles;
    ghost var st := archive.State();
    match command {
      case Replace(id, modifTime, content) =>
        var r := archive.ReplaceFileContent(id, modifTime, content);
        Rewritten(st, archive.State(), r, id, modifTime, content);
        outcome := DoneOrRefused(r);
      case NameDir(id, name) =>
        var r := archive.RenameDirectory(id, name);
        SameFilesUnless(st, archive.State(), r.Ok?);
        NamedDir(st, archive.State(), r, id, name);
        outcome := DoneOrRefused(r);
      case NameFile(id, name) =>
        var r := archive.RenameFile(id, name);
        NamedFile(st, archive.State(), r, id, name);
        outcome := DoneOrRefused(r);
    }
    GrewBytes(st, archive.State(), SegmentRoom(archive.conf), 0, NewBytes(command));
  }

  /** Carries out a command that removes or reads an item. */
  method ExecuteRemoval(archive: Archive, command: Command) returns (outcome: Outcome)
    requires archive.Valid() && archive.HasRoom(NewItems(command), NewBytes(command))
    requires !ByPath(command) && !command.CloseAndOpen? && !Creates(command) && !Changes(command)
    modifies archive, archive.source, archive.coverage
    ensures archive.Valid() && (View(archive.State()), outcome) == Perform(View(old(archive.State())), command)
    ensures Grew(old(archive.State()), archive.State(), SegmentRoom(archive.conf), NewItems(command), NewBytes(command))
  {
    hide Inv, View, Perform, NameCheck, Contents, SegmentRoom, PrunedBy, Shrunk, ItemAdded, ItemRewritten, ItemRenamed,
      ItemCleared, RoomMade, ContentPlaced, Allotted, Grew, SameFiles;
    ghost var st := archive.State();
    match command {
      case DropDir(id) =>
        var r := archive.RemoveDir(id);
        ShrunkSize(st, archive.State());
        Dropped(st, archive.State(), r, id);
        outcome := DoneOrRefused(r);
      case DropFile(id) =>
        var r := archive.RemoveFile(id);
        ShrunkSize(st, archive.State());
        DroppedOneFile(st, archive.State(), r, id);
        outcome := DoneOrRefused(r);
      case Fetch(id) =>
        var r := archive.ReadFileToVec(id);
        Fetched(st, r, id);
        outcome := ContentOrRefused(r);
    }
    GrewBytes(st, archive.State(), SegmentRoom(archive.conf), 0, 0);
  }

  /** Carries out a command that names items by path. */
  method ExecuteByPath(archive: Archive, command: Command) returns (outcome: Outcome)
    requires archive.Valid() && archive.HasRoom(NewItems(command), NewBytes(command)) && ByPath(command)
    modifies archive, archive.source, archive.coverage
    ensures archive.Valid() && (View(archive.State()), outcome) == Perform(View(old(archive.State())), command)
    ensures Grew(old(archive.State()), archive.State(), SegmentRoom(archive.conf), NewItems(command), NewBytes(command))
  {
    hide Inv, View, Perform, Contents, SegmentRoom, PrunedBy, Shrunk, Grew, Reach, Split, Parsed, Resolve, ItemAtPath,
      Written, Writable, Vacant, DirAdded, ClearWay, OnlyMissing, NewIfMissing, RouteTo, SameFiles, RestOfFile, NamesOf;
    ghost var st := archive.State();
    var paths := new WithPathsMut(archive);
    match command {
      case EnsureDirAt(path, now) =>
        var r := paths.GetOrCreateDirAt(path, now);
        EnsuredDir(View(st), View(archive.State()), r, path, now);
        outcome := if r.Ok? then Made(r.value.id) else RefusedAt(r.error);
      case MakeDirAt(path, modifTime, now) =>
        var r := paths.CreateDirAt(path, modifTime, now);
        outcome := IdReply(r);
      case WriteAt(path, modifTime, content, now) =>
        var r := paths.WriteFileAt(path, content, modifTime, now);
        outcome := DoneReply(r);
      case MakeFileAt(path, modifTime, content, now) =>
        var r := paths.CreateFileAt(path, content, modifTime, now);
        outcome := DoneReply(r);
      case UpdateAt(path, modifTime, content, now) =>
        var r := paths.UpdateFileAt(path, content, modifTime, now);
        outcome := DoneReply(r);
      case DropDirAt(path) =>
        outcome := DropDirByPath(archive, path);
      case DropFileAt(path) =>
        var r := paths.RemoveFileAt(path);
        ShrunkGrew(st, archive.State(), SegmentRoom(archive.conf));
        outcome := DoneReply(r);
      case FetchAt(path) =>
        FetchedAt(st, archive.sha3, path);
        GrewNothing(st, SegmentRoom(archive.conf));
        outcome := ReadToEnd(paths, path);
    }
  }

  method DropDirByPath(archive: Archive, path: Utf8String) returns (outcome: Outcome)
    requires archive.Valid()
    modifies archive, archive.source, archive.coverage
    ensures archive.Valid() && (View(archive.State()), outcome) == Perform(View(old(archive.State())), DropDirAt(path))
    ensures Grew(old(archive.State()), archive.State(), SegmentRoom(archive.conf), 0, 0)
  {
    hide Inv, View, Perform, SegmentRoom, PrunedBy, Shrunk, Grew, ItemAtPath;
    ghost var st := archive.State();
    ShrunkNothing(st, archive.sha3);
    var paths := new WithPathsMut(archive);
    var r := paths.RemoveDirAt(path);
    ShrunkGrew(st, archive.State(), SegmentRoom(archive.conf));
    outcome := DoneReply(r);
  }

  /** Reads the file at a path to its end. */
  method ReadToEnd(paths: WithPathsMut, path: Utf8String) returns (outcome: Outcome)
    requires paths.archive.Valid()
    modifies paths.archive.source`pos
    ensures match ItemAtPath(paths.archive.dirs, paths.archive.files, path)
            case Some(AtFile(id)) => id in paths.archive.files && outcome == Content(paths.archive.FileContents()[id])
            case _ => outcome == RefusedAt(NoFileAt(path))
  {
    hide Inv, Contents, ItemAtPath, RestOfFile;
    var reader := paths.ReadFileAt(path);
    if reader.Err? {
      return RefusedAt(reader.error);
    }
    var bytes := reader.value.ReadToVec();
    outcome := ContentOrRefused(ReadOrFailed(bytes));
  }

  lemma EnsuredDir(fs: FileSystem, fs': FileSystem, r: Result<Directory, PathAccessError>, path: Utf8String, now: Clock)
    requires NamesOf(path).Err? ==> r == Err(NamesOf(path).error)
    requires NamesOf(path).Ok? ==>
               Reach(fs, NamesOf(path).value, now) == if r.Ok? then Ok(Spot(fs', NonRoot(r.value.id))) else Err(r.error)
    requires r.Err? ==> fs' == fs
    ensures (fs', if r.Ok? then Made(r.value.id) else RefusedAt(r.error)) == Perform(fs, EnsureDirAt(path, now))
  {
    hide Reach, NamesOf;
  }

  lemma ShrunkGrew(st: State, st': State, room: nat)
    requires Shrunk(st, st')
    ensures Grew(st, st', room, 0, 0)
  {
    ShrunkSize(st, st');
  }

  /** Carries out a command; the archive that comes out is the same one, or the one that was opened again. */
  method Execute(archive: Archive, command: Command) returns (next: Archive, outcome: Outcome)
    requires archive.Valid() && archive.HasRoom(NewItems(command), NewBytes(command))
    modifies archive, archive.source, archive.coverage
    ensures next == archive || fresh(next)
    ensures next.coverage == archive.coverage || fresh(next.coverage)
    ensures next.source == archive.source && next.conf == archive.conf && next.sha3 == archive.sha3
    ensures next.Valid() && (View(next.State()), outcome) == Perform(View(old(archive.State())), command)
    ensures Grew(old(archive.State()), next.State(), SegmentRoom(archive.conf), NewItems(command), NewBytes(command))
  {
    hide Inv, View, Perform, IsNextId, SegmentRoom, Grew, NewItems, NewBytes;
    next := archive;
    if command.CloseAndOpen? {
      ghost var st := archive.State();
      next := Reopen(archive, archive.conf);
      Reopened(st, next.State());
      GrewBytes(st, next.State(), SegmentRoom(archive.conf), NewItems(command), NewBytes(command));
      outcome := Done;
    } else if ByPath(command) {
      outcome := ExecuteByPath(archive, command);
    } else if Creates(command) {
      outcome := ExecuteCreation(archive, command);
    } else if Changes(command) {
      outcome := ExecuteChange(archive, command);
    } else {
      outcome := ExecuteRemoval(archive, command);
    }
  }

  /**
   * Any sequence of commands, from any valid archive: the invariant holds at the end, and the view of the archive and
   * all the answers are those of the file system of maps.
   */
  method Run(archive: Archive, commands: seq<Command>) returns (final: Archive, outcomes: seq<Outcome>)
    requires archive.Valid() && archive.HasRoom(AllNewItems(commands), AllNewBytes(commands))
    modifies archive, archive.source, archive.coverage
    ensures final.Valid() && final.source == archive.source
    ensures (View(final.State()), outcomes) == PerformAll(View(old(archive.State())), commands)
  {
    hide Inv, View, Perform, PerformAll, SegmentRoom, Grew, AllNewItems, AllNewBytes, NewItems, NewBytes;
    ghost var st, room := archive.State(), SegmentRoom(archive.conf);
    final, outcomes := archive, [];
    NothingDone(st, room, commands);
    for i := 0 to |commands|
      invariant final == archive || fresh(final)
      invariant final.coverage == archive.coverage || fresh(final.coverage)
      invariant final.source == archive.source && final.conf == archive.conf
      invariant final.Valid() && (View(final.State()), outcomes) == PerformAll(View(st), commands[..i])
      invariant Grew(st, final.State(), room, AllNewItems(commands[..i]), AllNewBytes(commands[..i]))
    {
      ghost var before := final.State();
      RoomForNext(st, before, room, commands, i);
      var outcome: Outcome;
      final, outcome := Execute(final, commands[i]);
      OneMoreDone(st, before, final.State(), room, commands, i);
      outcomes := outcomes + [outcome];
    }
    assert commands[..|commands|] == commands;
  }

  /** The same from a new archive: it starts as the empty file system, whatever the store held before. */
  method RunNew(source: Source, conf: ArchiveConfig, sha3: Hash, commands: seq<Command>)
    returns (final: Archive, outcomes: seq<Outcome>)
    requires |source.data| < U64_LIMIT && AllNewItems(commands) + 1 < U64_LIMIT
    requires NewSize(|source.data|, conf) + AllNewItems(commands) * SegmentRoom(conf) + AllNewBytes(commands) < U64_LIMIT
    modifies source
    ensures final.Valid() && final.source == source
    ensures (View(final.State()), outcomes) == PerformAll(FileSystem(map[], map[], 1), commands)
  {
    hide Inv, PerformAll, SegmentRoom, AllNewItems, AllNewBytes, NewSize, Blob;
    var archive := new Archive.Create(source, conf, sha3);
    EmptyView(archive.State());
    final, outcomes := Run(archive, commands);
  }

  lemma EmptyView(st: State)
    requires st.dirs == map[] && st.files == map[] && st.nextId == 1
    ensures View(st) == FileSystem(map[], map[], 1)
  {
  }

  lemma NothingDone(st: State, room: nat, commands: seq<Command>)
    ensures Grew(st, st, room, AllNewItems(commands[..0]), AllNewBytes(commands[..0]))
    ensures PerformAll(View(st), commands[..0]) == (View(st), [])
  {
    hide View;
    assert commands[..0] == [];
  }

  lemma RoomForNext(st: State, st': State, room: nat, commands: seq<Command>, i: nat)
    requires i < |commands| && Grew(st, st', room, AllNewItems(commands[..i]), AllNewBytes(commands[..i]))
    requires st.nextId + AllNewItems(commands) < U64_LIMIT
    requires |st.disk| + AllNewItems(commands) * room + AllNewBytes(commands) < U64_LIMIT
    ensures st'.nextId + NewItems(commands[i]) < U64_LIMIT
    ensures |st'.disk| + NewItems(commands[i]) * room + NewBytes(commands[i]) < U64_LIMIT
  {
    hide AllNewBytes, NewBytes, AllNewItems, NewItems;
    SumsUpTo(commands, i);
    MoreInAll(commands, i + 1);
    var done, now, all := AllNewItems(commands[..i]), NewItems(commands[i]), AllNewItems(commands);
    Stride(done + now, all, room);
    RoomLeft(st, st', room, done, AllNewBytes(commands[..i]), now, NewBytes(commands[i]));
  }

  lemma OneMoreDone(st: State, st1: State, st2: State, room: nat, commands: seq<Command>, i: nat)
    requires i < |commands| && Grew(st, st1, room, AllNewItems(commands[..i]), AllNewBytes(commands[..i]))
    requires Grew(st1, st2, room, NewItems(commands[i]), NewBytes(commands[i]))
    ensures Grew(st, st2, room, AllNewItems(commands[..i + 1]), AllNewBytes(commands[..i + 1]))
    ensures var (fs, outcomes) := PerformAll(View(st), commands[..i]);
            var (fs', outcome) := Perform(fs, commands[i]);
            PerformAll(View(st), commands[..i + 1]) == (fs', outcomes + [outcome])
  {
    hide View, Perform, NewBytes, NewItems, AllNewBytes, AllNewItems;
    SumsUpTo(commands, i);
    assert commands[..i + 1][..i] == commands[..i];
    var done, now := AllNewItems(commands[..i]), NewItems(commands[i]);
    assert (done + now) * room == done * room + now * room;
  }

  lemma SumsUpTo(commands: seq<Command>, i: nat)
    requires i < |commands|
    ensures AllNewBytes(commands[..i + 1]) == AllNewBytes(commands[..i]) + NewBytes(commands[i])
    ensures AllNewItems(commands[..i + 1]) == AllNewItems(commands[..i]) + NewItems(commands[i])
  {
    hide NewBytes, NewItems;
    assert commands[..i + 1][..i] == commands[..i];
  }

  lemma {:induction false} MoreInAll(commands: seq<Command>, i: nat)
    requires i <= |commands|
    ensures AllNewBytes(commands[..i]) <= AllNewBytes(commands)
    ensures AllNewItems(commands[..i]) <= AllNewItems(commands)
    decreases |commands|
  {
    hide NewBytes, NewItems;
    if i < |commands| {
      var front := commands[..|commands| - 1];
      assert front[..i] == commands[..i];
      MoreInAll(front, i);
    } else {
      assert commands[..i] == commands;
    }
  }
}
