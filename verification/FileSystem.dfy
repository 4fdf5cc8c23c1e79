/** A small file system made of maps: what each operation does and answers, without bytes, slots or zones. */
module FileSystems {
  import opened Wrappers
  import opened Bytes
  import opened Names
  import opened Entries
  import opened FileTable
  import opened Trees
  import opened Layouts
  import opened States
  import opened Operations
  import opened Removals
  import opened Reopening
  import opened Archives
  import opened Paths
  import opened Routes
  import opened PathReading

  datatype FileView = FileView(parentDir: DirRef, name: Name, modifTime: U64, content: seq<Byte>)

  datatype FileSystem = FileSystem(dirs: Dirs, files: map<Id, FileView>, nextId: nat)

  /** The time that the clock shows when an item gets its identifier. */
  type Clock = Id -> U64

  datatype Command =
    | MakeDir(parentDir: DirRef, name: Name, modifTime: U64)
    | MakeFile(parentDir: DirRef, name: Name, modifTime: U64, content: seq<Byte>)
    | Replace(id: Id, modifTime: U64, content: seq<Byte>)
    | NameDir(id: Id, name: Name)
    | NameFile(id: Id, name: Name)
    | DropDir(id: Id)
    | DropFile(id: Id)
    | Fetch(id: Id)
    | EnsureDirAt(path: Utf8String, now: Clock)
    | MakeDirAt(path: Utf8String, modifTime: U64, now: Clock)
    | WriteAt(path: Utf8String, modifTime: U64, content: seq<Byte>, now: Clock)
    | MakeFileAt(path: Utf8String, modifTime: U64, content: seq<Byte>, now: Clock)
    | UpdateAt(path: Utf8String, modifTime: U64, content: seq<Byte>, now: Clock)
    | DropDirAt(path: Utf8String)
    | DropFileAt(path: Utf8String)
    | FetchAt(path: Utf8String)
    | CloseAndOpen

  /** What the caller gets back. */
  datatype Outcome =
    | Done
    | Made(made: nat)
    | Content(content: seq<Byte>)
    | Refused(error: ArchiveError)
    | RefusedAt(reason: PathAccessError)

  // -- Looking around ----------------------------------------------------------------------------

  /** The directory exists and has no item of that name. */
  predicate Free(fs: FileSystem, ref: DirRef, name: Name) {
    && (ref.NonRoot? ==> ref.id in fs.dirs)
    && (forall id :: id in fs.dirs && fs.dirs[id].parentDir == ref ==> fs.dirs[id].name != name)
    && (forall id :: id in fs.files && fs.files[id].parentDir == ref ==> fs.files[id].name != name)
  }

  /** Why an item of that name cannot be in the directory, if so. */
  function Admit(fs: FileSystem, ref: DirRef, name: Name): Result<(), ArchiveError> {
    if ref.NonRoot? && ref.id !in fs.dirs then Err(DirectoryNotFound)
    else if !Free(fs, ref, name) then Err(DuplicateName(name, ref))
    else Ok(())
  }

  ghost predicate IsEntry(fs: FileSystem, ref: DirRef, name: Name, k: ItemId) {
    match k
    case DirId(id) => id in fs.dirs && fs.dirs[id].parentDir == ref && fs.dirs[id].name == name
    case FileId(id) => id in fs.files && fs.files[id].parentDir == ref && fs.files[id].name == name
  }

  /** The item of that name in the directory. */
  ghost function EntryAt(fs: FileSystem, ref: DirRef, name: Name): Option<ItemId> {
    if exists k :: IsEntry(fs, ref, name, k) then
      var k :| IsEntry(fs, ref, name, k);
      Some(k)
    else None
  }

  /** What a list of names leads to. */
  ghost function Find(fs: FileSystem, path: seq<Name>): Option<ItemIdOrRoot> {
    if path == [] then Some(AtRoot)
    else
      var at := Find(fs, path[..|path| - 1]);
      if RefAt(at).None? then None
      else
        var k := EntryAt(fs, RefAt(at).value, path[|path| - 1]);
        if k.Some? then Some(Place(k.value)) else None
  }

  ghost function FindAt(fs: FileSystem, path: Utf8String): Option<ItemIdOrRoot> {
    if Parsed(path).Err? then None else Find(fs, Parsed(path).value)
  }

  // -- Changing things ---------------------------------------------------------------------------

  /** A new directory under the next identifier. */
  function WithDir(fs: FileSystem, ref: DirRef, name: Name, modifTime: U64): FileSystem {
    if 0 < fs.nextId < U64_LIMIT then
      fs.(dirs := fs.dirs[fs.nextId := Directory(fs.nextId, ref, name, modifTime)], nextId := fs.nextId + 1)
    else fs
  }

  function WithFile(fs: FileSystem, ref: DirRef, name: Name, modifTime: U64, content: seq<Byte>): FileSystem {
    if 0 < fs.nextId < U64_LIMIT then
      fs.(files := fs.files[fs.nextId := FileView(ref, name, modifTime, content)], nextId := fs.nextId + 1)
    else fs
  }

  /** Without a directory and everything below it. */
  function Pruned(fs: FileSystem, id: Id): FileSystem {
    fs.(dirs := map d | d in fs.dirs && !IsUnder(fs.dirs, NonRoot(d), id) :: fs.dirs[d],
        files := map f | f in fs.files && !IsUnder(fs.dirs, fs.files[f].parentDir, id) :: fs.files[f])
  }

  ghost function NextAfter(ids: set<Id>): nat {
    if exists n: nat :: IsNextId(ids, n) then
      var n: nat :| IsNextId(ids, n);
      n
    else 1
  }

  /** The directory that would be created next, seen at a given time. */
  function NextRef(fs: FileSystem): DirRef {
    if 0 < fs.nextId < U64_LIMIT then NonRoot(fs.nextId) else Root
  }

  function TimeOfNext(fs: FileSystem, now: Clock): U64 {
    if 0 < fs.nextId < U64_LIMIT then now(fs.nextId) else 0
  }

  datatype Spot = Spot(fs: FileSystem, ref: DirRef)

  /** Follows names from the root and creates the directories that are missing; a file in the way stops the descent. */
  ghost function Reach(fs: FileSystem, path: seq<Name>, now: Clock): Result<Spot, PathAccessError> {
    if path == [] then Ok(Spot(fs, Root))
    else
      var front, name := path[..|path| - 1], path[|path| - 1];
      match Reach(fs, front, now)
      case Err(error) => Err(error)
      case Ok(at) => ReachNext(at, front, name, now)
  }

  ghost function ReachNext(at: Spot, front: seq<Name>, name: Name, now: Clock): Result<Spot, PathAccessError> {
    match EntryAt(at.fs, at.ref, name)
    case Some(DirId(id)) => Ok(Spot(at.fs, NonRoot(id)))
    case Some(FileId(_)) =>
      JoinUtf8(front);
      Err(FileCollision(Join(front)))
    case None => Ok(Spot(WithDir(at.fs, at.ref, name, TimeOfNext(at.fs, now)), NextRef(at.fs)))
  }

  /** The names of a path that must not be empty. */
  function NamesOf(path: Utf8String): Result<seq<Name>, PathAccessError> {
    match Parsed(path)
    case Err(error) => Err(PathFailed(error))
    case Ok(names) => if names == [] then Err(PathIsEmpty) else Ok(names)
  }

  /** The directory that a new item of the path goes to, once it has been reached and admits the name. */
  ghost function ReachParent(fs: FileSystem, path: Utf8String, now: Clock): Result<Spot, PathAccessError> {
    var names :- NamesOf(path);
    var at :- Reach(fs, names[..|names| - 1], now);
    match Admit(at.fs, at.ref, names[|names| - 1])
    case Err(error) => Err(ArchiveFailed(error))
    case Ok(_) => Ok(at)
  }

  /** The last name of a path that has one. */
  function LastName(path: Utf8String): Name
    requires NamesOf(path).Ok?
  {
    NamesOf(path).value[|NamesOf(path).value| - 1]
  }

  ghost function Replaced(fs: FileSystem, id: Id, modifTime: U64, content: seq<Byte>): (FileSystem, Outcome) {
    if id in fs.files then
      (fs.(files := fs.files[id := fs.files[id].(modifTime := modifTime, content := content)]), Done)
    else (fs, Refused(ArchiveError.FileNotFound))
  }

  ghost function WrittenAt(fs: FileSystem, path: Utf8String, modifTime: U64, content: seq<Byte>, now: Clock)
    : (FileSystem, Outcome)
  {
    match FindAt(fs, path)
    case Some(AtFile(id)) => Replaced(fs, id, modifTime, content)
    case _ =>
      match ReachParent(fs, path, now)
      case Err(reason) => (fs, RefusedAt(reason))
      case Ok(at) => (WithFile(at.fs, at.ref, LastName(path), modifTime, content), Done)
  }

  /** What a command does, and what it answers; one that is refused does nothing. */
  ghost function Perform(fs: FileSystem, command: Command): (FileSystem, Outcome) {
    match command
    case MakeDir(parentDir, name, modifTime) =>
      if Admit(fs, parentDir, name).Err? then (fs, Refused(Admit(fs, parentDir, name).error))
      else (WithDir(fs, parentDir, name, modifTime), Made(fs.nextId))
    case MakeFile(parentDir, name, modifTime, content) =>
      if Admit(fs, parentDir, name).Err? then (fs, Refused(Admit(fs, parentDir, name).error))
      else (WithFile(fs, parentDir, name, modifTime, content), Made(fs.nextId))
    case Replace(id, modifTime, content) => Replaced(fs, id, modifTime, content)
    case NameDir(id, name) =>
      if id !in fs.dirs then (fs, Refused(DirectoryNotFound))
      else if Admit(fs, fs.dirs[id].parentDir, name).Err? then
        (fs, Refused(Admit(fs, fs.dirs[id].parentDir, name).error))
      else (fs.(dirs := fs.dirs[id := fs.dirs[id].(name := name)]), Done)
    case NameFile(id, name) =>
      if id !in fs.files then (fs, Refused(ArchiveError.FileNotFound))
      else if Admit(fs, fs.files[id].parentDir, name).Err? then
        (fs, Refused(Admit(fs, fs.files[id].parentDir, name).error))
      else (fs.(files := fs.files[id := fs.files[id].(name := name)]), Done)
    case DropDir(id) =>
      if id in fs.dirs then (Pruned(fs, id), Done) else (fs, Refused(DirectoryNotFound))
    case DropFile(id) =>
      if id in fs.files then (fs.(files := fs.files - {id}), Done) else (fs, Refused(ArchiveError.FileNotFound))
    case Fetch(id) =>
      (fs, if id in fs.files then Content(fs.files[id].content) else Refused(ArchiveError.FileNotFound))
    case EnsureDirAt(path, now) =>
      if NamesOf(path).Err? then (fs, RefusedAt(NamesOf(path).error))
      else
        (match Reach(fs, NamesOf(path).value, now)
         case Err(reason) => (fs, RefusedAt(reason))
         case Ok(at) => (at.fs, Made(RefNumber(at.ref))))
    case MakeDirAt(path, modifTime, now) =>
      (match ReachParent(fs, path, now)
       case Err(reason) => (fs, RefusedAt(reason))
       case Ok(at) => (WithDir(at.fs, at.ref, LastName(path), modifTime), Made(at.fs.nextId)))
    case WriteAt(path, modifTime, content, now) => WrittenAt(fs, path, modifTime, content, now)
    case MakeFileAt(path, modifTime, content, now) =>
      if FindAt(fs, path).Some? && FindAt(fs, path).value.AtFile? then (fs, RefusedAt(FileAlreadyExists(path)))
      else WrittenAt(fs, path, modifTime, content, now)
    case UpdateAt(path, modifTime, content, now) =>
      if FindAt(fs, path).Some? && FindAt(fs, path).value.AtFile? then WrittenAt(fs, path, modifTime, content, now)
      else (fs, RefusedAt(NoFileAt(path)))
    case DropDirAt(path) =>
      (match FindAt(fs, path)
       case Some(AtDir(id)) => (Pruned(fs, id), Done)
       case _ => (fs, RefusedAt(ItemNotFound)))
    case DropFileAt(path) =>
      (match FindAt(fs, path)
       case Some(AtFile(id)) => (fs.(files := fs.files - {id}), Done)
       case _ => (fs, RefusedAt(NoFileAt(path))))
    case FetchAt(path) =>
      (match FindAt(fs, path)
       case Some(AtFile(id)) => (fs, if id in fs.files then Content(fs.files[id].content) else Done)
       case _ => (fs, RefusedAt(NoFileAt(path))))
    case CloseAndOpen =>
      (fs.(nextId := NextAfter(fs.dirs.Keys + fs.files.Keys)), Done)
  }

  // -- How an archive shows such a file system ---------------------------------------------------

  ghost function FileViews(files: Files, contents: map<Id, seq<Byte>>): map<Id, FileView>
    requires contents.Keys == files.Keys
  {
    map id | id in files :: FileView(files[id].parentDir, files[id].name, files[id].modifTime, contents[id])
  }

  ghost function View(st: State): FileSystem {
    FileSystem(st.dirs, FileViews(st.files, Contents(st.disk, st.files)), st.nextId)
  }

  /** The view admits a name exactly if the engine does, and refuses it for the same reason. */
  lemma AdmitIsNameCheck(st: State, ref: DirRef, name: Name)
    ensures Admit(View(st), ref, name) == NameCheck(st.dirs, st.files, name, ref)
  {
    hide Contents, Free, NamesIn, Refs;
    var fs := View(st);
    FreeIffUnlisted(st.dirs, st.files, fs, ref, name);
    LiveRef(st.dirs, st.files, ref);
  }

  lemma FreeIffUnlisted(dirs: Dirs, files: Files, fs: FileSystem, ref: DirRef, name: Name)
    requires fs.dirs == dirs && fs.files.Keys == files.Keys
    requires forall id :: id in files ==> fs.files[id].parentDir == files[id].parentDir && fs.files[id].name == files[id].name
    ensures Free(fs, ref, name) <==> ref in Refs(dirs) && name !in NamesIn(dirs, files, ref)
  {
    NameInGroup(dirs, files, ref, name);
    hide NamesIn, Refs;
    assert ref in Refs(dirs) <==> (ref.NonRoot? ==> ref.id in dirs) by {
      LiveRef(dirs, files, ref);
    }
    if name in NamesIn(dirs, files, ref) {
      var k :| IsNamed(Lookup(dirs, files, k), ref, name);
      assert IsNamed(Lookup(dirs, files, k), ref, name);
      match k
      case DirId(id) => assert fs.dirs[id].parentDir == ref && fs.dirs[id].name == name;
      case FileId(id) => assert fs.files[id].parentDir == ref && fs.files[id].name == name;
    } else {
      forall id | id in dirs && dirs[id].parentDir == ref
        ensures dirs[id].name != name
      {
        assert !IsNamed(Lookup(dirs, files, DirId(id)), ref, name);
      }
      forall id | id in files && files[id].parentDir == ref
        ensures files[id].name != name
      {
        assert !IsNamed(Lookup(dirs, files, FileId(id)), ref, name);
      }
    }
  }

  lemma ViewsSet(files: Files, contents: map<Id, seq<Byte>>, id: Id, file: File, bytes: seq<Byte>)
    requires contents.Keys == files.Keys
    ensures FileViews(files[id := file], contents[id := bytes]) ==
            FileViews(files, contents)[id := FileView(file.parentDir, file.name, file.modifTime, bytes)]
  {
  }

  lemma ViewsWithout(files: Files, contents: map<Id, seq<Byte>>, id: Id)
    requires contents.Keys == files.Keys
    ensures FileViews(files - {id}, contents - {id}) == FileViews(files, contents) - {id}
  {
  }

  lemma ViewsKeys(files: Files, contents: map<Id, seq<Byte>>)
    requires contents.Keys == files.Keys
    ensures FileViews(files, contents).Keys == files.Keys
  {
  }

  lemma DirsLeft(st: State, st': State, id: Id)
    requires PrunedBy(st, st', [id]) && Shrunk(st, st')
    ensures st'.dirs == map d | d in st.dirs && !IsUnder(st.dirs, NonRoot(d), id) :: st.dirs[d]
  {
    hide Blob, IsUnder, SameShape, ItemAt;
    assert [id][0] == id;
    assert forall ref :: Survives(st.dirs, [id], ref) <==> !IsUnder(st.dirs, ref, id);
    forall d | d in st'.dirs
      ensures d in st.dirs && st'.dirs[d] == st.dirs[d]
    {
      assert Lookup(st'.dirs, st'.files, DirId(d)).Some?;
    }
  }

  lemma FilesLeft(st: State, st': State, id: Id)
    requires PrunedBy(st, st', [id]) && Shrunk(st, st')
    ensures var views := FileViews(st.files, Contents(st.disk, st.files));
            FileViews(st'.files, Contents(st'.disk, st'.files)) ==
            map f | f in views && !IsUnder(st.dirs, views[f].parentDir, id) :: views[f]
  {
    hide Blob, IsUnder, SameShape, ItemAt, FileViews, Contents;
    assert [id][0] == id;
    assert forall ref :: Survives(st.dirs, [id], ref) <==> !IsUnder(st.dirs, ref, id);
    forall f | f in st'.files
      ensures f in st.files && st'.files[f] == st.files[f]
    {
      assert Lookup(st'.dirs, st'.files, FileId(f)).Some?;
    }
    FilteredViews(st, st', id);
  }

  lemma FilteredViews(st: State, st': State, id: Id)
    requires forall f :: f in st'.files <==> f in st.files && !IsUnder(st.dirs, st.files[f].parentDir, id)
    requires forall f :: f in st'.files ==>
               st'.files[f] == st.files[f] && Blob(st'.disk, st'.files[f]) == Blob(st.disk, st.files[f])
    ensures var views := FileViews(st.files, Contents(st.disk, st.files));
            FileViews(st'.files, Contents(st'.disk, st'.files)) ==
            map f | f in views && !IsUnder(st.dirs, views[f].parentDir, id) :: views[f]
  {
    ViewsAre(st);
    ViewsAre(st');
    hide *;
    FilteredMap(st.dirs, id, FileViews(st.files, Contents(st.disk, st.files)),
                FileViews(st'.files, Contents(st'.disk, st'.files)));
  }

  lemma FilteredMap(dirs: Dirs, id: Id, views: map<Id, FileView>, views': map<Id, FileView>)
    requires forall f :: f in views' <==> f in views && !IsUnder(dirs, views[f].parentDir, id)
    requires forall f :: f in views' ==> views'[f] == views[f]
    ensures views' == map f | f in views && !IsUnder(dirs, views[f].parentDir, id) :: views[f]
  {
    hide *;
  }

  lemma ViewsAre(st: State)
    ensures Contents(st.disk, st.files).Keys == st.files.Keys
    ensures var views := FileViews(st.files, Contents(st.disk, st.files));
            && views.Keys == st.files.Keys
            && forall f :: f in views ==>
                 var file := st.files[f];
                 views[f] == FileView(file.parentDir, file.name, file.modifTime, Blob(st.disk, file))
  {
    hide Blob;
  }

  lemma ShrunkSize(st: State, st': State)
    requires Shrunk(st, st')
    ensures |st'.disk| == |st.disk| && st'.nextId == st.nextId
  {
  }

  /** The view of an archive has the same items in a directory as the archive. */
  lemma EntryIsChild(st: State, ref: DirRef, name: Name)
    requires TreeOk(st.dirs, st.files, st.nextId)
    ensures EntryAt(View(st), ref, name) == Child(st.dirs, st.files, ref, name)
  {
    hide TreeOk, Contents;
    var fs := View(st);
    forall k
      ensures IsEntry(fs, ref, name, k) <==> IsChild(st.dirs, st.files, ref, name, k)
    {
    }
    hide IsEntry, IsChild;
    if k :| IsEntry(fs, ref, name, k) {
      var entry := EntryAt(fs, ref, name).value;
      ChildIs(st.dirs, st.files, st.nextId, ref, name, entry);
    }
  }

  lemma {:induction false} FindIsResolve(st: State, path: seq<Name>)
    requires TreeOk(st.dirs, st.files, st.nextId)
    ensures Find(View(st), path) == Resolve(st.dirs, st.files, path)
  {
    hide TreeOk, Child, EntryAt, View;
    if path != [] {
      var front := path[..|path| - 1];
      FindIsResolve(st, front);
      var at := Resolve(st.dirs, st.files, front);
      if RefAt(at).Some? {
        EntryIsChild(st, RefAt(at).value, path[|path| - 1]);
      }
    }
  }

  // -- Each change of an archive is a change of its view ------------------------------------------

  lemma ReplacedView(st: State, st': State, id: Id, modifTime: U64, content: seq<Byte>)
    requires id in st.files && id in st'.files && st'.files == st.files[id := st'.files[id]]
    requires st'.dirs == st.dirs && st'.nextId == st.nextId
    requires var file, file' := st.files[id], st'.files[id];
             file'.parentDir == file.parentDir && file'.name == file.name && file'.modifTime == modifTime
    requires Contents(st'.disk, st'.files) == Contents(st.disk, st.files)[id := content]
    ensures Replaced(View(st), id, modifTime, content) == (View(st'), Done)
  {
    hide Blob;
    ViewsSet(st.files, Contents(st.disk, st.files), id, st'.files[id], content);
  }

  lemma DroppedFile(st: State, st': State, id: Id)
    requires id in st.files && st'.files == st.files - {id} && st'.nextId == st.nextId && st'.dirs == st.dirs
    requires Contents(st'.disk, st'.files) == Contents(st.disk, st.files) - {id}
    ensures View(st') == View(st).(files := View(st).files - {id}) && id in View(st).files
  {
    hide Blob, FileViews;
    ViewsKeys(st.files, Contents(st.disk, st.files));
    ViewsWithout(st.files, Contents(st.disk, st.files), id);
  }

  lemma DroppedDir(st: State, st': State, id: Id)
    requires PrunedBy(st, st', [id]) && Shrunk(st, st')
    ensures View(st') == Pruned(View(st), id)
  {
    hide Contents, FileViews, IsUnder, PrunedBy, Shrunk;
    DirsLeft(st, st', id);
    FilesLeft(st, st', id);
    ShrunkSize(st, st');
  }
}
