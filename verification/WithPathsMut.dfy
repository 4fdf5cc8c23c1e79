/** Changing an archive through paths: missing directories are created on the way. */
module PathWriting {
  import opened Wrappers
  import opened Bytes
  import opened Names
  import opened Entries
  import opened Coverages
  import opened FileTable
  import opened Trees
  import opened Layouts
  import opened States
  import opened Operations
  import opened Removals
  import opened FileReaders
  import opened Archives
  import opened Paths
  import opened Routes
  import opened PathReading
  import opened Frames
  import opened FileSystems

  predicate IsFile(at: Option<ItemIdOrRoot>) {
    at.Some? && at.value.AtFile?
  }

  /** The error names the directory that holds the file in the way, by the names that lead there. */
  ghost predicate Collides(dirs: Dirs, files: Files, path: seq<Name>, error: PathAccessError) {
    exists i :: 0 <= i < |path| && IsFile(Resolve(dirs, files, path[..i + 1])) && error.FileCollision?
                && error.collision == Join(path[..i])
  }

  /** No prefix of the path, nor the path itself, leads to a file. */
  ghost predicate ClearWay(dirs: Dirs, files: Files, path: seq<Name>) {
    forall i :: 0 <= i <= |path| ==> !IsFile(Resolve(dirs, files, path[..i]))
  }

  /** A directory that was created because a prefix of the path led nowhere. */
  ghost predicate WasMissing(dirs: Dirs, files: Files, dirs': Dirs, path: seq<Name>, now: Clock, id: Id) {
    && id in dirs' && dirs'[id].modifTime == now(id)
    && exists i :: 0 < i <= |path| && RouteTo(dirs', NonRoot(id)) == path[..i]
                   && Resolve(dirs, files, path[..i]).None?
  }

  /** The old directories, and new ones only where a prefix of the path led nowhere. */
  ghost predicate OnlyMissing(dirs: Dirs, files: Files, dirs': Dirs, path: seq<Name>, now: Clock) {
    && (forall id :: id in dirs ==> id in dirs' && dirs'[id] == dirs[id])
    && (forall id :: id in dirs' && id !in dirs ==> WasMissing(dirs, files, dirs', path, now, id))
  }

  /** Every path that led to an item leads to it still. */
  ghost predicate StillFound(dirs: Dirs, files: Files, dirs': Dirs, files': Files) {
    forall path: seq<Name>, k :: Resolve(dirs, files, path) == Some(Place(k)) ==>
      Resolve(dirs', files', path) == Some(Place(k))
  }

  /** The first `i` components have been followed down to `ref`; once one was missing, so are all the later ones. */
  ghost predicate Descended(dirs: Dirs, files: Files, dirs': Dirs, path: seq<Name>, i: nat, ref: DirRef,
                            created: bool, now: Clock)
    requires i <= |path|
  {
    && ref in Refs(dirs') && RouteTo(dirs', ref) == path[..i]
    && OnlyMissing(dirs, files, dirs', path, now)
    && ClearWay(dirs, files, path[..i])
    && if created then Resolve(dirs, files, path[..i]).None? && NamesIn(dirs', files, ref) == {} else dirs' == dirs
  }

  /** Everything but the last name. */
  function Front(path: seq<Name>): seq<Name>
    requires path != []
  {
    path[..|path| - 1]
  }

  /** The file at the path holds the given bytes and time; nothing else has changed but missing parents. */
  ghost predicate Written(st: State, st': State, path: seq<Name>, bytes: seq<Byte>, modifTime: U64, now: Clock, id: Id)
    requires path != []
  {
    && id in st'.files && Resolve(st'.dirs, st'.files, path) == Some(AtFile(id))
    && st'.files[id].modifTime == modifTime && st'.files[id].contentLen == |bytes|
    && Contents(st'.disk, st'.files) == Contents(st.disk, st.files)[id := bytes]
    && (forall f :: f in st.files && f != id ==> f in st'.files && st'.files[f] == st.files[f])
    && (id in st.files ==> Resolve(st.dirs, st.files, path) == Some(AtFile(id)) && st'.dirs == st.dirs)
    && OnlyMissing(st.dirs, st.files, st'.dirs, Front(path), now)
    && StillFound(st.dirs, st.files, st'.dirs, st'.files)
  }

  /** The directory at the path is new; nothing else has changed but missing parents. */
  ghost predicate DirAdded(st: State, st': State, path: seq<Name>, modifTime: U64, now: Clock, id: Id)
    requires path != []
  {
    && id in st'.dirs && id !in st.dirs && st'.dirs[id].modifTime == modifTime
    && Resolve(st'.dirs, st'.files, path) == Some(AtDir(id))
    && OnlyMissing(st.dirs, st.files, st'.dirs - {id}, Front(path), now)
    && StillFound(st.dirs, st.files, st'.dirs, st'.files)
  }

  /** Nothing is at the path, and no file stands in for one of its parents. */
  ghost predicate Vacant(dirs: Dirs, files: Files, path: Utf8String) {
    && Parsed(path).Ok? && Parsed(path).value != []
    && ClearWay(dirs, files, Front(Parsed(path).value))
    && Resolve(dirs, files, Parsed(path).value).None?
  }

  /** The path can be written: no directory is there, and no file stands in for one of its parents. */
  ghost predicate Writable(dirs: Dirs, files: Files, path: Utf8String) {
    && Parsed(path).Ok? && Parsed(path).value != []
    && ClearWay(dirs, files, Front(Parsed(path).value))
    && (Resolve(dirs, files, Parsed(path).value).Some? ==> IsFile(Resolve(dirs, files, Parsed(path).value)))
  }

  class WithPathsMut {
    const archive: Archive

    constructor (archive: Archive)
      ensures this.archive == archive
    {
      this.archive := archive;
    }

    /** Follows a path from the root and creates what is missing; fails, and changes nothing, if a file is in the way. */
    method GetOrCreateDirAt(path: Utf8String, now: Clock) returns (r: Result<Directory, PathAccessError>)
      requires archive.Valid() && archive.HasRoom(|Split(path)|, 0)
      modifies archive, archive.source, archive.coverage
      ensures archive.Valid()
      ensures r.Err? ==> archive.State() == old(archive.State())
      ensures r.Ok? <==> Parsed(path).Ok? && Parsed(path).value != []
                         && ClearWay(old(archive.dirs), old(archive.files), Parsed(path).value)
      ensures r.Ok? ==> && r.value.id in archive.dirs && archive.dirs[r.value.id] == r.value
                        && RouteTo(archive.dirs, NonRoot(r.value.id)) == Parsed(path).value
                        && OnlyMissing(old(archive.dirs), old(archive.files), archive.dirs, Parsed(path).value, now)
                        && NewIfMissing(old(archive.State()), archive.State(), Parsed(path).value, NonRoot(r.value.id))
      ensures Parsed(path).Err? ==> r == Err(PathFailed(Parsed(path).error))
      ensures Parsed(path) == Ok([]) ==> r == Err(PathIsEmpty)
      ensures NamesOf(path).Err? ==> r == Err(NamesOf(path).error)
      ensures r.Err? && Parsed(path).Ok? && Parsed(path).value != [] ==>
                Collides(old(archive.dirs), old(archive.files), Parsed(path).value, r.error)
      ensures NamesOf(path).Ok? ==>
                Reach(View(old(archive.State())), NamesOf(path).value, now) ==
                if r.Ok? then Ok(Spot(View(archive.State()), NonRoot(r.value.id))) else Err(r.error)
      ensures SameFiles(old(archive.State()), archive.State())
      ensures Grew(old(archive.State()), archive.State(), SegmentRoom(archive.conf), |Split(path)|, 0)
    {
      hide Inv, TreeOk, Child, Descended, ClearWay, OnlyMissing, RouteTo, SegmentRoom, Contents, Refs, Grew, RoomFor,
        SameFiles, ValidName, Utf8, NewIfMissing, View, Reach, Descent, Collides;
      SameFilesNow(archive.State());
      GrewNothing(archive.State(), SegmentRoom(archive.conf));
      ghost var st := archive.State();
      ContentIs(st, archive.sha3);
      var currDir: Option<Directory> := None;
      var currPath := new PathInArchive.Empty();
      var parsed := PathInArchive.New(path);
      if parsed.Err? {
        return Err(PathFailed(parsed.error));
      }
      var components := parsed.value.names;
      FewerNames(path);
      RoomForFewer(st, SegmentRoom(archive.conf), |components|, |Split(path)|);
      DescentStart(st, SegmentRoom(archive.conf), components, now);
      ghost var created := false;
      for i := 0 to |components|
        invariant archive.Valid()
        invariant Descent(st, archive.State(), SegmentRoom(archive.conf), components, i, RefOf(currDir), created, now)
        invariant currDir.Some? ==> currDir.value.id in archive.dirs && archive.dirs[currDir.value.id] == currDir.value
        invariant currDir.None? <==> i == 0
        invariant i == 0 ==> archive.State() == st
        invariant currPath.names == components[..i]
      {
        var segment := components[i];
        var step, made := Descend(currDir, currPath, segment, now, st, components, i, created);
        if step.Err? {
          return Err(step.error);
        }
        currDir := Some(step.value);
        created := made;
        OneMore(components, i);
        currPath.Append(segment);
      }
      Arrived(st, archive.State(), SegmentRoom(archive.conf), components, RefOf(currDir), created, now, |Split(path)|);
      r := if currDir.Some? then Ok(currDir.value) else Err(PathIsEmpty);
    }

    /** Creates a directory, and its missing parents; fails, and changes nothing, if anything is at the path already. */
    method CreateDirAt(path: Utf8String, modifTime: U64, now: Clock) returns (r: Result<Id, PathAccessError>)
      requires archive.Valid() && archive.HasRoom(|Split(path)|, 0)
      modifies archive, archive.source, archive.coverage
      ensures archive.Valid()
      ensures r.Err? ==> archive.State() == old(archive.State())
      ensures r.Ok? <==> Vacant(old(archive.dirs), old(archive.files), path)
      ensures r.Ok? ==> DirAdded(old(archive.State()), archive.State(), Parsed(path).value, modifTime, now, r.value)
      ensures (View(archive.State()), IdReply(r)) == Perform(View(old(archive.State())), MakeDirAt(path, modifTime, now))
      ensures SameFiles(old(archive.State()), archive.State())
      ensures Grew(old(archive.State()), archive.State(), SegmentRoom(archive.conf), |Split(path)|, 0)
    {
      hide Inv, ClearWay, OnlyMissing, SegmentRoom, Contents, Grew, SameFiles, NewIfMissing, Parsed, Split, Resolve,
        ValidName, Utf8, RouteTo, NamesIn, TreeOk, Group, Refs, StillFound, View, Reach, Perform, NameCheck, DirAdded,
        WithDir, ReachParent, ItemAdded, RoomMade, FindAt;
      ghost var st := archive.State();
      SameFilesNow(st);
      GrewNothing(st, SegmentRoom(archive.conf));
      NoParent(View(st), path, modifTime, [], now);
      var parsed := PathInArchive.New(path);
      if parsed.Err? {
        return Err(PathFailed(parsed.error));
      }
      var components := parsed.value;
      ghost var names := components.names;
      var filename := components.Pop();
      if filename.None? {
        return Err(PathIsEmpty);
      }
      PoppedFront(names, components.names, filename.value);
      RoomForParents(path, st, SegmentRoom(archive.conf), 0);
      var parentDir := ParentDir(components, now);
      if parentDir.Err? {
        return Err(parentDir.error);
      }
      ghost var st1 := archive.State();
      FreeIff(st, st1, archive.sha3, names, parentDir.value);
      RoomAfter(st, st1, SegmentRoom(archive.conf), |names| - 1, 0);
      ParentReached(st, st1, path, names, parentDir.value, modifTime, [], now);
      var id := archive.CreateDir(parentDir.value, filename.value, modifTime);
      match id {
        case Err(error) =>
          r := Err(ArchiveFailed(error));
        case Ok(id) =>
          SameFilesOf(st1, archive.State());
          DirWritten(st, st1, archive.State(), archive.sha3, names, modifTime, now, parentDir.value, id);
          GrewByOne(st, st1, archive.State(), SegmentRoom(archive.conf), |names| - 1, 0, |Split(path)|);
          r := Ok(id);
      }
    }

    /** Replaces the file at a path, or creates it with its missing parents; on failure nothing has changed. */
    method WriteFileAt(path: Utf8String, content: seq<Byte>, modifTime: U64, now: Clock)
      returns (r: Result<(), PathAccessError>)
      requires archive.Valid() && archive.HasRoom(|Split(path)|, |content|)
      modifies archive, archive.source, archive.coverage
      ensures archive.Valid()
      ensures r.Err? ==> archive.State() == old(archive.State())
      ensures r.Ok? <==> Writable(old(archive.dirs), old(archive.files), path)
      ensures r.Ok? ==>
                exists id :: Written(old(archive.State()), archive.State(), Parsed(path).value, content, modifTime, now, id)
      ensures (View(archive.State()), DoneReply(r)) ==
              Perform(View(old(archive.State())), WriteAt(path, modifTime, content, now))
      ensures Grew(old(archive.State()), archive.State(), SegmentRoom(archive.conf), |Split(path)|, |content|)
    {
      hide Inv, ClearWay, OnlyMissing, SegmentRoom, Contents, Grew, SameFiles, NewIfMissing, Parsed, Split, Resolve,
        ValidName, Utf8, RouteTo, NamesIn, TreeOk, Group, Refs, StillFound, Written, View, Reach, Perform, NameCheck,
        WithFile, ReachParent, ItemAtPath, FindAt, Writable, ItemRewritten,
        Allotted, FreedFor;
      ghost var st := archive.State();
      GrewNothing(st, SegmentRoom(archive.conf));
      LookedUp(st, archive.sha3, path);
      var paths := new WithPaths(archive);
      var file := paths.GetFileAt(path);
      if file.Some? {
        var replaced := archive.ReplaceFileContent(file.value.id, modifTime, content);
        FileReplaced(st, archive.State(), archive.sha3, path, content, modifTime, now, file.value.id);
        GrewBytes(st, archive.State(), SegmentRoom(archive.conf), |Split(path)|, |content|);
        return Ok(());
      }
      r := WriteNewFileAt(path, content, modifTime, now);
    }

    /** Creates a file, and its missing parents, where no file is. */
    method WriteNewFileAt(path: Utf8String, content: seq<Byte>, modifTime: U64, now: Clock)
      returns (r: Result<(), PathAccessError>)
      requires archive.Valid() && archive.HasRoom(|Split(path)|, |content|)
      requires !IsFile(ItemAtPath(archive.dirs, archive.files, path))
      modifies archive, archive.source, archive.coverage
      ensures archive.Valid()
      ensures r.Err? ==> archive.State() == old(archive.State())
      ensures r.Ok? <==> Writable(old(archive.dirs), old(archive.files), path)
      ensures r.Ok? ==>
                exists id :: Written(old(archive.State()), archive.State(), Parsed(path).value, content, modifTime, now, id)
      ensures (View(archive.State()), DoneReply(r)) ==
              Perform(View(old(archive.State())), WriteAt(path, modifTime, content, now))
      ensures Grew(old(archive.State()), archive.State(), SegmentRoom(archive.conf), |Split(path)|, |content|)
    {
      hide Inv, ClearWay, OnlyMissing, SegmentRoom, Contents, Grew, SameFiles, NewIfMissing, Parsed, Split, Resolve,
        ValidName, Utf8, RouteTo, NamesIn, TreeOk, Group, Refs, StillFound, Written, View, Reach, Perform, NameCheck,
        WithFile, ReachParent, ItemAtPath, FindAt, Writable, ItemAdded,
        RoomMade, ContentPlaced, Allotted;
      ghost var st := archive.State();
      GrewNothing(st, SegmentRoom(archive.conf));
      LookedUp(st, archive.sha3, path);
      NoParent(View(st), path, modifTime, content, now);
      WritableIfVacant(st.dirs, st.files, path);
      var parsed := PathInArchive.New(path);
      if parsed.Err? {
        return Err(PathFailed(parsed.error));
      }
      var components := parsed.value;
      ghost var names := components.names;
      var filename := components.Pop();
      if filename.None? {
        return Err(PathIsEmpty);
      }
      PoppedFront(names, components.names, filename.value);
      RoomForParents(path, st, SegmentRoom(archive.conf), |content|);
      var parentDir := ParentDir(components, now);
      if parentDir.Err? {
        return Err(parentDir.error);
      }
      ghost var st1 := archive.State();
      FreeIff(st, st1, archive.sha3, names, parentDir.value);
      RoomAfter(st, st1, SegmentRoom(archive.conf), |names| - 1, |content|);
      ParentReached(st, st1, path, names, parentDir.value, modifTime, content, now);
      var id := archive.CreateFile(parentDir.value, filename.value, modifTime, content);
      match id {
        case Err(error) =>
          r := Err(ArchiveFailed(error));
        case Ok(id) =>
          FileCreated(st, st1, archive.State(), archive.sha3, names, content, modifTime, now, parentDir.value, id);
          GrewByOne(st, st1, archive.State(), SegmentRoom(archive.conf), |names| - 1, |content|, |Split(path)|);
          r := Ok(());
      }
    }

    /** Writes a file where no file is. */
    method CreateFileAt(path: Utf8String, content: seq<Byte>, modifTime: U64, now: Clock)
      returns (r: Result<(), PathAccessError>)
      requires archive.Valid() && archive.HasRoom(|Split(path)|, |content|)
      modifies archive, archive.source, archive.coverage
      ensures archive.Valid()
      ensures r.Err? ==> archive.State() == old(archive.State())
      ensures r.Ok? <==> Vacant(old(archive.dirs), old(archive.files), path)
      ensures r.Ok? ==>
                exists id :: Written(old(archive.State()), archive.State(), Parsed(path).value, content, modifTime, now, id)
      ensures (View(archive.State()), DoneReply(r)) ==
              Perform(View(old(archive.State())), MakeFileAt(path, modifTime, content, now))
      ensures Grew(old(archive.State()), archive.State(), SegmentRoom(archive.conf), |Split(path)|, |content|)
    {
      hide Inv, ClearWay, Parsed, Split, Resolve, Written, View, Grew, SegmentRoom, WrittenAt;
      GrewNothing(archive.State(), SegmentRoom(archive.conf));
      LookedUp(archive.State(), archive.sha3, path);
      var paths := new WithPaths(archive);
      var file := paths.GetFileAt(path);
      if file.Some? {
        return Err(FileAlreadyExists(path));
      }
      r := WriteFileAt(path, content, modifTime, now);
    }

    /** Writes a file where one is already; no directory can be missing on the way. */
    method UpdateFileAt(path: Utf8String, content: seq<Byte>, modifTime: U64, now: Clock)
      returns (r: Result<(), PathAccessError>)
      requires archive.Valid() && archive.HasRoom(|Split(path)|, |content|)
      modifies archive, archive.source, archive.coverage
      ensures archive.Valid()
      ensures r.Err? ==> archive.State() == old(archive.State())
      ensures r.Ok? <==> IsFile(ItemAtPath(old(archive.dirs), old(archive.files), path))
      ensures r.Ok? ==>
                exists id :: Written(old(archive.State()), archive.State(), Parsed(path).value, content, modifTime, now, id)
      ensures (View(archive.State()), DoneReply(r)) ==
              Perform(View(old(archive.State())), UpdateAt(path, modifTime, content, now))
      ensures Grew(old(archive.State()), archive.State(), SegmentRoom(archive.conf), |Split(path)|, |content|)
    {
      hide Inv, ClearWay, Parsed, Split, Resolve, Written, View, Grew, SegmentRoom, WrittenAt, ItemAtPath;
      GrewNothing(archive.State(), SegmentRoom(archive.conf));
      LookedUp(archive.State(), archive.sha3, path);
      var paths := new WithPaths(archive);
      var file := paths.GetFileAt(path);
      if file.None? {
        return Err(NoFileAt(path));
      }
      FilePathWritable(archive.dirs, archive.files, path, file.value.id);
      r := WriteFileAt(path, content, modifTime, now);
    }

    /** Removes the directory at a path, with everything below it. */
    method RemoveDirAt(path: Utf8String) returns (r: Result<(), PathAccessError>)
      requires archive.Valid()
      modifies archive, archive.source, archive.coverage
      ensures archive.Valid()
      ensures match ItemAtPath(old(archive.dirs), old(archive.files), path)
              case Some(AtDir(id)) => r.Ok? && PrunedBy(old(archive.State()), archive.State(), [id])
                                      && Shrunk(old(archive.State()), archive.State())
              case _ => r == Err(ItemNotFound) && archive.State() == old(archive.State())
      ensures (View(archive.State()), DoneReply(r)) == Perform(View(old(archive.State())), DropDirAt(path))
    {
      hide Inv, Parsed, Resolve, ItemAtPath, PrunedBy, Shrunk, View, Pruned, Perform, FindAt;
      ghost var st := archive.State();
      LookedUp(st, archive.sha3, path);
      DropDirIs(View(st), path);
      var paths := new WithPaths(archive);
      var dir := paths.GetDirAt(path);
      if dir.None? {
        return Err(ItemNotFound);
      }
      var _ := archive.RemoveDir(dir.value.id);
      DroppedDir(st, archive.State(), dir.value.id);
      r := Ok(());
    }

    /** Removes the file at a path. */
    method RemoveFileAt(path: Utf8String) returns (r: Result<(), PathAccessError>)
      requires archive.Valid()
      modifies archive, archive.source, archive.coverage
      ensures archive.Valid()
      ensures match ItemAtPath(old(archive.dirs), old(archive.files), path)
              case Some(AtFile(id)) =>
                && r.Ok? && archive.dirs == old(archive.dirs) && archive.files == old(archive.files) - {id}
                && archive.FileContents() == old(archive.FileContents()) - {id}
              case _ => r == Err(NoFileAt(path)) && archive.State() == old(archive.State())
      ensures (View(archive.State()), DoneReply(r)) == Perform(View(old(archive.State())), DropFileAt(path))
      ensures Shrunk(old(archive.State()), archive.State())
    {
      hide Inv, Parsed, Resolve, ItemAtPath, Contents, Shrunk, View, Perform, FindAt;
      ghost var st := archive.State();
      LookedUp(st, archive.sha3, path);
      DropFileIs(View(st), path);
      ShrunkNothing(st, archive.sha3);
      var paths := new WithPaths(archive);
      var file := paths.GetFileAt(path);
      if file.None? {
        return Err(NoFileAt(path));
      }
      var _ := archive.RemoveFile(file.value.id);
      DroppedFile(st, archive.State(), file.value.id);
      r := Ok(());
    }

    /** A reader on the file at a path; it gives the content of that file. */
    method ReadFileAt(path: Utf8String) returns (r: Result<FileReader, PathAccessError>)
      requires archive.Valid()
      modifies archive.source`pos
      ensures match ItemAtPath(archive.dirs, archive.files, path)
              case Some(AtFile(id)) =>
                && id in archive.files && r.Ok? && fresh(r.value) && r.value.Valid() && r.value.pos == 0
                && r.value.source == archive.source
                && RestOfFile(archive.source.data, r.value.start, r.value.len, 0, r.value.expectedChecksum,
                              r.value.sha3)
                   == Ok(archive.FileContents()[id])
              case _ => r == Err(NoFileAt(path))
    {
      hide Inv, Parsed, Resolve, ItemAtPath, RestOfFile;
      var paths := new WithPaths(archive);
      var file := paths.GetFileAt(path);
      if file.None? {
        return Err(NoFileAt(path));
      }
      var reader := archive.ReadFile(file.value.id);
      match reader {
        case Err(error) => r := Err(ArchiveFailed(error));
        case Ok(reader) => r := Ok(reader);
      }
    }

    /** The directory that a path stands for, possibly the root, with what is missing created. */
    method ParentDir(path: PathInArchive, now: Clock) returns (r: Result<DirRef, PathAccessError>)
      requires archive.Valid() && archive.HasRoom(|path.names|, 0)
      modifies archive, archive.source, archive.coverage
      ensures archive.Valid()
      ensures r.Err? ==> archive.State() == old(archive.State())
      ensures r.Ok? <==> ClearWay(old(archive.dirs), old(archive.files), path.names)
      ensures r.Ok? ==> && r.value in Refs(archive.dirs) && RouteTo(archive.dirs, r.value) == path.names
                        && OnlyMissing(old(archive.dirs), old(archive.files), archive.dirs, path.names, now)
                        && NewIfMissing(old(archive.State()), archive.State(), path.names, r.value)
      ensures Reach(View(old(archive.State())), path.names, now) ==
              if r.Ok? then Ok(Spot(View(archive.State()), r.value)) else Err(r.error)
      ensures SameFiles(old(archive.State()), archive.State())
      ensures Grew(old(archive.State()), archive.State(), SegmentRoom(archive.conf), |path.names|, 0)
    {
      hide Inv, ClearWay, OnlyMissing, SegmentRoom, Contents, Grew, SameFiles, NewIfMissing, Parsed, Split, Join,
        ValidName, Utf8, RouteTo, View, Reach;
      ReachRoot(View(archive.State()), now);
      if path.names == [] {
        AtTheRoot(archive.State(), SegmentRoom(archive.conf), now);
        return Ok(Root);
      }
      PathRoundTrip(path.names);
      ComponentsOfDisplay(path.names);
      var display := path.Display();
      var dir := GetOrCreateDirAt(display, now);
      r := if dir.Ok? then Ok(NonRoot(dir.value.id)) else Err(dir.error);
    }

    /** One step down: to the directory of the given name, which is created if nothing has that name. */
    method Descend(currDir: Option<Directory>, currPath: PathInArchive, segment: Name, now: Clock, ghost st: State,
                   ghost path: seq<Name>, ghost i: nat, ghost created: bool)
      returns (r: Result<Directory, PathAccessError>, ghost made: bool)
      requires archive.Valid() && Inv(st, archive.sha3) && RoomFor(st, SegmentRoom(archive.conf), |path|)
      requires i < |path| && segment == path[i] && currPath.names == path[..i]
      requires Descent(st, archive.State(), SegmentRoom(archive.conf), path, i, RefOf(currDir), created, now)
      modifies archive, archive.source, archive.coverage
      ensures archive.Valid()
      ensures r.Err? ==> && archive.State() == st && !ClearWay(st.dirs, st.files, path)
                         && Reach(View(st), path, now) == Err(r.error) && Collides(st.dirs, st.files, path, r.error)
      ensures r.Ok? ==> && r.value.id in archive.dirs && archive.dirs[r.value.id] == r.value
                        && Descent(st, archive.State(), SegmentRoom(archive.conf), path, i + 1, NonRoot(r.value.id), made,
                                   now)
    {
      hide Inv, TreeOk, Child, Descended, ClearWay, OnlyMissing, RouteTo, SegmentRoom, Contents, Refs, Grew, RoomFor,
        View, Reach, Reached, Collides;
      ghost var before := archive.State();
      ContentIs(before, archive.sha3);
      var currId := RefOf(currDir);
      made := created;
      GrewSoRoom(st, before, SegmentRoom(archive.conf), i, |path|);
      ContentIs(st, archive.sha3);
      Standing(st, before, path, i, currId, created, now);
      var item := FindChild(archive, currId, segment);
      match item {
        case Err(error) =>
          r := Err(ArchiveFailed(error));
        case Ok(Some(DirItem(dir))) =>
          FoundSoUnchanged(st.dirs, st.files, archive.dirs, path, i, currId, created, now);
          FoundDir(st.dirs, st.files, st.nextId, path, i, currId, now, dir.id);
          ReachedDir(st, before, path, i, currId, now, dir.id);
          r := Ok(dir);
        case Ok(Some(FileItem(file))) =>
          FoundSoUnchanged(st.dirs, st.files, archive.dirs, path, i, currId, created, now);
          FoundFile(st.dirs, st.files, st.nextId, path, i, currId, now, file.id);
          ReachedFile(st, before, path, i, currId, now, file.id);
          var collision := currPath.Display();
          CollidesThere(st.dirs, st.files, path, i, collision);
          r := Err(FileCollision(collision));
        case Ok(None) =>
          var dir := CreateNext(currId, segment, now, st, path, i, created);
          GrewMore(st, before, archive.State(), SegmentRoom(archive.conf), i);
          ReachedNew(st, before, archive.State(), path, i, currId, now);
          made := true;
          r := Ok(dir);
      }
    }

    /** Creates the directory for a missing component. */
    method CreateNext(currId: DirRef, segment: Name, now: Clock, ghost st: State, ghost path: seq<Name>, ghost i: nat,
                      ghost created: bool) returns (dir: Directory)
      requires archive.Valid() && archive.HasRoom(1, 0) && Inv(st, archive.sha3)
      requires i < |path| && segment == path[i] && archive.files == st.files
      requires Descended(st.dirs, st.files, archive.dirs, path, i, currId, created, now)
      requires Child(archive.dirs, archive.files, currId, segment).None?
      modifies archive, archive.source, archive.coverage
      ensures archive.Valid() && archive.files == st.files && archive.FileContents() == old(archive.FileContents())
      ensures dir.id in archive.dirs && archive.dirs[dir.id] == dir
      ensures Descended(st.dirs, st.files, archive.dirs, path, i + 1, NonRoot(dir.id), true, now)
      ensures dir.id == old(archive.nextId) && archive.nextId == old(archive.nextId) + 1
      ensures archive.dirs == old(archive.dirs)[dir.id := Directory(dir.id, currId, segment, now(dir.id))]
      ensures |archive.source.data| <= old(|archive.source.data|) + SegmentRoom(archive.conf)
    {
      hide Inv, TreeOk, Child, Descended, SegmentRoom, Contents, NamesIn, NameCheck;
      ghost var dirs, id := archive.dirs, archive.nextId;
      ContentIs(st, archive.sha3);
      ContentIs(archive.State(), archive.sha3);
      CanCreate(st, archive.State(), archive.sha3, path, i, currId, created, now);
      var made := archive.CreateDir(currId, segment, now(archive.nextId));
      ContentIs(archive.State(), archive.sha3);
      Created(st.dirs, st.files, st.nextId, dirs, archive.nextId, path, i, currId, created, now, id);
      var found := archive.GetDir(made.value);
      dir := found.value;
    }
  }

  function RefOf(dir: Option<Directory>): DirRef {
    match dir
    case None => Root
    case Some(dir) => NonRoot(dir.id)
  }

  lemma OneMore(path: seq<Name>, i: nat)
    requires i < |path|
    ensures path[..i + 1] == path[..i] + [path[i]]
  {
  }

  lemma PoppedFront(names: seq<Name>, front: seq<Name>, last: Name)
    requires names == front + [last]
    ensures names != [] && Front(names) == front && names[|names| - 1] == last
  {
  }

  /** There is room for the parents of a path and for one item more. */
  lemma RoomForParents(path: Utf8String, st: State, room: nat, bytes: nat)
    requires Parsed(path).Ok? && Parsed(path).value != []
    requires st.nextId + |Split(path)| < U64_LIMIT && |st.disk| + |Split(path)| * room + bytes < U64_LIMIT
    ensures var n := |Parsed(path).value|;
            && n <= |Split(path)|
            && st.nextId + n < U64_LIMIT && |st.disk| + n * room + bytes < U64_LIMIT
            && |st.disk| + (n - 1) * room < U64_LIMIT
  {
    FewerNames(path);
    hide Parsed, Split;
    Stride(|Parsed(path).value|, |Split(path)|, room);
    Stride(|Parsed(path).value| - 1, |Split(path)|, room);
  }

  lemma RoomAfter(st: State, st': State, room: nat, n: nat, bytes: nat)
    requires Grew(st, st', room, n, 0)
    requires st.nextId + n + 1 < U64_LIMIT && |st.disk| + (n + 1) * room + bytes < U64_LIMIT
    ensures st'.nextId + 1 < U64_LIMIT && |st'.disk| + room + bytes < U64_LIMIT
  {
    assert (n + 1) * room == n * room + room;
  }

  lemma AtTheRoot(st: State, room: nat, now: Clock)
    ensures ClearWay(st.dirs, st.files, []) && OnlyMissing(st.dirs, st.files, st.dirs, [], now)
    ensures Root in Refs(st.dirs) && RouteTo(st.dirs, Root) == []
    ensures NewIfMissing(st, st, [], Root) && SameFiles(st, st) && Grew(st, st, room, 0, 0)
  {
  }

  lemma ComponentsOfDisplay(names: seq<Name>)
    requires names != []
    ensures |Split(Join(names))| == |names|
  {
    forall part | part in names
      ensures SLASH !in part
    {
      ValidNameRules(part);
    }
    SplitOfJoin(names);
  }

  /** A path has no more names than it has components. */
  lemma FewerNames(path: Utf8String)
    ensures Parsed(path).Ok? ==> |Parsed(path).value| <= |Split(path)|
  {
    AcceptedIff(path);
    OrdinariesBound(Split(path));
  }

  lemma {:induction false} OrdinariesBound(parts: seq<seq<Byte>>)
    ensures Ordinaries(parts) <= |parts|
  {
    if parts != [] {
      OrdinariesBound(parts[1..]);
    }
  }

  /** Nothing has changed, or nothing was there and the directory at the end of the path is new and empty. */
  ghost predicate NewIfMissing(st: State, st': State, path: seq<Name>, ref: DirRef) {
    st' == st || (Resolve(st.dirs, st.files, path).None? && NamesIn(st'.dirs, st'.files, ref) == {})
  }

  /** The same files, with the same content. */
  ghost predicate SameFiles(st: State, st': State) {
    st'.files == st.files && Contents(st'.disk, st'.files) == Contents(st.disk, st.files)
  }

  lemma SameFilesOf(st: State, st': State)
    requires st'.files == st.files && Contents(st'.disk, st'.files) == Contents(st.disk, st.files)
    ensures SameFiles(st, st')
  {
  }

  lemma SameFilesNow(st: State)
    ensures SameFiles(st, st)
  {
  }

  /** At most `n` identifiers and `n` new segments have been taken, and that many bytes of content. */
  ghost predicate Grew(st: State, st': State, room: nat, n: nat, bytes: nat) {
    st'.nextId <= st.nextId + n && |st'.disk| <= |st.disk| + n * room + bytes
  }

  ghost predicate RoomFor(st: State, room: nat, n: nat) {
    st.nextId + n < U64_LIMIT && |st.disk| + n * room < U64_LIMIT
  }

  lemma RoomForFewer(st: State, room: nat, i: nat, n: nat)
    requires i <= n && st.nextId + n < U64_LIMIT && |st.disk| + n * room < U64_LIMIT
    ensures RoomFor(st, room, i)
  {
    Stride(i, n, room);
  }

  /** What an operation has not used is left for the next ones. */
  lemma RoomLeft(st: State, st': State, room: nat, n: nat, bytes: nat, more: nat, moreBytes: nat)
    requires Grew(st, st', room, n, bytes)
    requires st.nextId + n + more < U64_LIMIT && |st.disk| + (n + more) * room + bytes + moreBytes < U64_LIMIT
    ensures st'.nextId + more < U64_LIMIT && |st'.disk| + more * room + moreBytes < U64_LIMIT
  {
    assert (n + more) * room == n * room + more * room;
  }

  lemma GrewNothing(st: State, room: nat)
    ensures forall n: nat, bytes: nat :: Grew(st, st, room, n, bytes)
  {
    forall n: nat, bytes: nat
      ensures Grew(st, st, room, n, bytes)
    {
      Stride(0, n, room);
    }
  }

  lemma GrewBytes(st: State, st': State, room: nat, n: nat, bytes: nat)
    requires st'.nextId <= st.nextId && |st'.disk| <= |st.disk| + bytes
    ensures Grew(st, st', room, n, bytes)
  {
    Stride(0, n, room);
  }

  lemma GrewSoRoom(st: State, st': State, room: nat, i: nat, n: nat)
    requires Grew(st, st', room, i, 0) && i < n
    requires RoomFor(st, room, n)
    ensures st'.nextId + 1 < U64_LIMIT && |st'.disk| + room < U64_LIMIT
    ensures Grew(st, st', room, i + 1, 0)
  {
    Stride(i + 1, n, room);
    Stride(i, i + 1, room);
  }

  lemma GrewMore(st: State, st1: State, st2: State, room: nat, i: nat)
    requires Grew(st, st1, room, i, 0)
    requires st2.nextId <= st1.nextId + 1 && |st2.disk| <= |st1.disk| + room
    ensures Grew(st, st2, room, i + 1, 0)
  {
    assert (i + 1) * room == i * room + room;
  }

  lemma GrewByOne(st: State, st1: State, st2: State, room: nat, i: nat, bytes: nat, n: nat)
    requires Grew(st, st1, room, i, 0) && i < n
    requires st2.nextId <= st1.nextId + 1 && |st2.disk| <= |st1.disk| + room + bytes
    ensures Grew(st, st2, room, n, bytes)
  {
    Stride(i, i, room);
    Stride(i + 1, n, room);
  }

  lemma Standing(st: State, st': State, path: seq<Name>, i: nat, ref: DirRef, created: bool, now: Clock)
    requires i <= |path| && Descended(st.dirs, st.files, st'.dirs, path, i, ref, created, now)
    ensures ref in Refs(st'.dirs)
  {
    hide Refs, RouteTo, OnlyMissing, ClearWay, NamesIn, Resolve;
  }

  // -- Steps of the descent ----------------------------------------------------------------------

  /** Routes to directories that were there before stay the same. */
  lemma {:induction false} RouteKept(dirs: Dirs, files: Files, nextId: nat, dirs': Dirs, ref: DirRef)
    requires TreeOk(dirs, files, nextId) && ref in Refs(dirs)
    requires forall id :: id in dirs ==> id in dirs' && dirs'[id] == dirs[id]
    ensures RouteTo(dirs', ref) == RouteTo(dirs, ref)
    decreases RefNumber(ref)
  {
    hide TreeOk;
    if ref.NonRoot? {
      assert Lookup(dirs, files, DirId(ref.id)).Some?;
      Climb(dirs, files, nextId, DirId(ref.id));
      RouteKept(dirs, files, nextId, dirs', dirs[ref.id].parentDir);
    }
  }

  lemma Start(dirs: Dirs, files: Files, path: seq<Name>, now: Clock)
    ensures Descended(dirs, files, dirs, path, 0, Root, false, now)
  {
    assert path[..0] == [];
  }

  lemma ClearStep(dirs: Dirs, files: Files, path: seq<Name>, i: nat)
    requires i < |path|
    ensures ClearWay(dirs, files, path[..i + 1]) <==>
            ClearWay(dirs, files, path[..i]) && !IsFile(Resolve(dirs, files, path[..i + 1]))
  {
    hide Resolve, IsFile;
    var front, longer := path[..i], path[..i + 1];
    forall j: nat | j <= i
      ensures front[..j] == longer[..j]
    {
    }
    assert longer[..i + 1] == longer;
    if ClearWay(dirs, files, front) && !IsFile(Resolve(dirs, files, longer)) {
      forall j | 0 <= j <= |longer|
        ensures !IsFile(Resolve(dirs, files, longer[..j]))
      {
        assert j <= i ==> front[..j] == longer[..j];
      }
    }
  }

  /** Where the descent stands, the next component leads to the child of that name. */
  lemma NextPlace(dirs: Dirs, files: Files, nextId: nat, path: seq<Name>, i: nat, ref: DirRef)
    requires TreeOk(dirs, files, nextId) && i < |path|
    requires ref in Refs(dirs) && RouteTo(dirs, ref) == path[..i]
    ensures Resolve(dirs, files, path[..i + 1]) == Below(dirs, files, Some(PlaceOf(ref)), path[i])
  {
    hide TreeOk, Below, Resolve, RouteTo, Refs, PlaceOf;
    ResolvesToDir(dirs, files, nextId, path[..i], ref);
    OneStep(dirs, files, path, i);
  }

  lemma OneStep(dirs: Dirs, files: Files, path: seq<Name>, i: nat)
    requires i < |path|
    ensures Resolve(dirs, files, path[..i + 1]) == Below(dirs, files, Resolve(dirs, files, path[..i]), path[i])
  {
    hide Below;
    assert path[..i + 1][..i] == path[..i];
  }

  /** A child can only be found while nothing has been created. */
  lemma FoundSoUnchanged(dirs: Dirs, files: Files, dirs': Dirs, path: seq<Name>, i: nat, ref: DirRef,
                         created: bool, now: Clock)
    requires i < |path| && Descended(dirs, files, dirs', path, i, ref, created, now)
    requires Child(dirs', files, ref, path[i]).Some?
    ensures !created && dirs' == dirs
  {
    hide Child, NamesIn, OnlyMissing, ClearWay;
    NoChild(dirs', files, ref, path[i]);
  }

  lemma FoundDir(dirs: Dirs, files: Files, nextId: nat, path: seq<Name>, i: nat, ref: DirRef, now: Clock, id: Id)
    requires TreeOk(dirs, files, nextId) && i < |path|
    requires Descended(dirs, files, dirs, path, i, ref, false, now)
    requires Child(dirs, files, ref, path[i]) == Some(DirId(id))
    ensures Descended(dirs, files, dirs, path, i + 1, NonRoot(id), false, now)
    ensures id in dirs && dirs[id].id == id
  {
    hide TreeOk, Child, OnlyMissing, ClearWay;
    ChildIs(dirs, files, nextId, ref, path[i], DirId(id));
    Climb(dirs, files, nextId, DirId(id));
    NextPlace(dirs, files, nextId, path, i, ref);
    ClearStep(dirs, files, path, i);
    assert path[..i + 1] == path[..i] + [path[i]];
  }

  lemma FoundFile(dirs: Dirs, files: Files, nextId: nat, path: seq<Name>, i: nat, ref: DirRef, now: Clock, id: Id)
    requires TreeOk(dirs, files, nextId) && i < |path|
    requires Descended(dirs, files, dirs, path, i, ref, false, now)
    requires Child(dirs, files, ref, path[i]) == Some(FileId(id))
    ensures !ClearWay(dirs, files, path) && IsFile(Resolve(dirs, files, path[..i + 1]))
  {
    hide TreeOk, Child, OnlyMissing;
    NextPlace(dirs, files, nextId, path, i, ref);
    assert IsFile(Resolve(dirs, files, path[..i + 1]));
  }

  lemma CollidesThere(dirs: Dirs, files: Files, path: seq<Name>, i: nat, collision: Utf8String)
    requires i < |path| && IsFile(Resolve(dirs, files, path[..i + 1])) && collision == Join(path[..i])
    ensures Collides(dirs, files, path, FileCollision(collision))
  {
    hide Resolve, Join;
  }

  lemma NotFound(dirs: Dirs, files: Files, nextId: nat, dirs': Dirs, path: seq<Name>, i: nat, ref: DirRef,
                 created: bool, now: Clock)
    requires TreeOk(dirs, files, nextId) && i < |path|
    requires Descended(dirs, files, dirs', path, i, ref, created, now)
    requires Child(dirs', files, ref, path[i]).None?
    ensures Resolve(dirs, files, path[..i + 1]).None?
  {
    hide TreeOk, Child, OnlyMissing, ClearWay, NamesIn;
    if created {
      assert path[..i + 1][..i] == path[..i];
      DeadEnd(dirs, files, path[..i + 1], i);
    } else {
      NextPlace(dirs, files, nextId, path, i, ref);
    }
  }

  lemma Created(dirs: Dirs, files: Files, nextId: nat, dirs': Dirs, nextId': nat, path: seq<Name>, i: nat, ref: DirRef,
                created: bool, now: Clock, id: Id)
    requires TreeOk(dirs, files, nextId) && TreeOk(dirs', files, id) && i < |path|
    requires Descended(dirs, files, dirs', path, i, ref, created, now)
    requires Child(dirs', files, ref, path[i]).None?
    requires var dirs1 := dirs'[id := Directory(id, ref, path[i], now(id))]; TreeOk(dirs1, files, nextId')
    ensures var dirs1 := dirs'[id := Directory(id, ref, path[i], now(id))];
            Descended(dirs, files, dirs1, path, i + 1, NonRoot(id), true, now)
  {
    hide TreeOk, Child, ClearWay, NamesIn, OnlyMissing, Resolve, Below;
    var dir := Directory(id, ref, path[i], now(id));
    var dirs1 := dirs'[id := dir];
    NotFound(dirs, files, nextId, dirs', path, i, ref, created, now);
    FreshIdentifier(dirs', files, id, DirId(id));
    assert Lookup(dirs1, files, DirId(id)) == Some(DirItem(dir));
    Climb(dirs1, files, nextId', DirId(id));
    RouteKept(dirs', files, id, dirs1, ref);
    assert path[..i + 1] == path[..i] + [path[i]];
    ClearStep(dirs, files, path, i);
    NewIsEmpty(dirs', files, id, dir);
    MissingMore(dirs, files, dirs', nextId', path, i + 1, now, dir);
  }

  lemma NewIsEmpty(dirs: Dirs, files: Files, id: Id, dir: Directory)
    requires TreeOk(dirs, files, id) && dir.id == id && dir.parentDir in Refs(dirs)
    ensures NamesIn(dirs[id := dir], files, NonRoot(id)) == {}
  {
    FreshIdentifier(dirs, files, id, DirId(id));
    NoChildren(dirs, files, id, NonRoot(id));
    hide TreeOk;
    assert NamesIn(dirs[id := dir], files, NonRoot(id)) == NamesIn(dirs, files, NonRoot(id));
  }

  lemma MissingMore(dirs: Dirs, files: Files, dirs': Dirs, nextId': nat, path: seq<Name>, i: nat, now: Clock, dir: Directory)
    requires OnlyMissing(dirs, files, dirs', path, now) && TreeOk(dirs', files, dir.id)
    requires 0 < i <= |path| && dir.modifTime == now(dir.id)
    requires RouteTo(dirs'[dir.id := dir], NonRoot(dir.id)) == path[..i] && Resolve(dirs, files, path[..i]).None?
    ensures OnlyMissing(dirs, files, dirs'[dir.id := dir], path, now)
  {
    hide TreeOk, Resolve, RouteTo, WasMissing;
    var dirs1 := dirs'[dir.id := dir];
    FreshIdentifier(dirs', files, dir.id, DirId(dir.id));
    forall id | id in dirs1 && id !in dirs
      ensures WasMissing(dirs, files, dirs1, path, now, id)
    {
      if id != dir.id {
        StillMissing(dirs, files, dirs', path, now, dir, id);
      } else {
        NowMissing(dirs, files, dirs1, path, i, now, id);
      }
    }
  }

  lemma StillMissing(dirs: Dirs, files: Files, dirs': Dirs, path: seq<Name>, now: Clock, dir: Directory, id: Id)
    requires TreeOk(dirs', files, dir.id) && dir.id !in dirs'
    requires WasMissing(dirs, files, dirs', path, now, id)
    ensures WasMissing(dirs, files, dirs'[dir.id := dir], path, now, id)
  {
    hide TreeOk, Resolve, RouteTo;
    RouteKept(dirs', files, dir.id, dirs'[dir.id := dir], NonRoot(id));
  }

  lemma NowMissing(dirs: Dirs, files: Files, dirs': Dirs, path: seq<Name>, i: nat, now: Clock, id: Id)
    requires id in dirs' && dirs'[id].modifTime == now(id)
    requires 0 < i <= |path| && RouteTo(dirs', NonRoot(id)) == path[..i] && Resolve(dirs, files, path[..i]).None?
    ensures WasMissing(dirs, files, dirs', path, now, id)
  {
  }

  lemma CanCreate(st: State, st': State, sha3: Hash, path: seq<Name>, i: nat, ref: DirRef, created: bool, now: Clock)
    requires Inv(st', sha3) && i < |path| && st'.files == st.files
    requires Descended(st.dirs, st.files, st'.dirs, path, i, ref, created, now)
    requires Child(st'.dirs, st'.files, ref, path[i]).None?
    ensures NameCheck(st'.dirs, st'.files, path[i], ref).Ok?
  {
    hide Inv, TreeOk, Child, OnlyMissing, ClearWay, NamesIn, Refs;
    NoChild(st'.dirs, st'.files, ref, path[i]);
  }

  lemma Arrived(st: State, st': State, room: nat, path: seq<Name>, ref: DirRef, created: bool, now: Clock, n: nat)
    requires Descent(st, st', room, path, |path|, ref, created, now) && |path| <= n
    ensures NewIfMissing(st, st', path, ref) && SameFiles(st, st')
    ensures RouteTo(st'.dirs, ref) == path && OnlyMissing(st.dirs, st.files, st'.dirs, path, now)
    ensures ClearWay(st.dirs, st.files, path)
    ensures Grew(st, st', room, n, 0)
    ensures Reach(View(st), path, now) == Ok(Spot(View(st'), ref))
  {
    hide OnlyMissing, ClearWay;
    assert path[..|path|] == path;
    Stride(|path|, n, room);
    ReachedAll(st, st', path, ref, now);
  }

  /** The first `i` names lead to `ref`, and only what was missing on the way has been created. */
  ghost predicate Descent(st: State, st': State, room: nat, path: seq<Name>, i: nat, ref: DirRef, created: bool, now: Clock)
    requires i <= |path|
  {
    && Descended(st.dirs, st.files, st'.dirs, path, i, ref, created, now)
    && Reached(st, st', path, i, ref, now)
    && SameFiles(st, st') && Grew(st, st', room, i, 0)
    && (!created ==> st' == st)
  }

  lemma DescentStart(st: State, room: nat, path: seq<Name>, now: Clock)
    ensures Descent(st, st, room, path, 0, Root, false, now)
  {
    hide Descended, Reached, SameFiles, Grew;
    SameFilesNow(st);
    GrewNothing(st, room);
    Start(st.dirs, st.files, path, now);
    ReachedNothing(st, path, now);
  }

  // -- The view along the way --------------------------------------------------------------------

  /** The file system of maps has followed the first `i` names to the same place. */
  ghost predicate Reached(st: State, st': State, path: seq<Name>, i: nat, ref: DirRef, now: Clock)
    requires i <= |path|
  {
    Reach(View(st), path[..i], now) == Ok(Spot(View(st'), ref))
  }

  lemma ReachRoot(fs: FileSystem, now: Clock)
    ensures Reach(fs, [], now) == Ok(Spot(fs, Root))
  {
  }

  lemma ReachedNothing(st: State, path: seq<Name>, now: Clock)
    ensures Reached(st, st, path, 0, Root, now)
  {
    hide View;
    assert path[..0] == [];
  }

  lemma ReachedAll(st: State, st': State, path: seq<Name>, ref: DirRef, now: Clock)
    requires Reached(st, st', path, |path|, ref, now)
    ensures Reach(View(st), path, now) == Ok(Spot(View(st'), ref))
  {
    hide View, Reach;
    assert path[..|path|] == path;
  }

  lemma ReachOneMore(fs: FileSystem, path: seq<Name>, i: nat, now: Clock)
    requires i < |path| && Reach(fs, path[..i], now).Ok?
    ensures Reach(fs, path[..i + 1], now) == ReachNext(Reach(fs, path[..i], now).value, path[..i], path[i], now)
  {
    hide ReachNext;
    assert path[..i + 1][..i] == path[..i];
  }

  lemma {:induction false} ReachStopped(fs: FileSystem, path: seq<Name>, i: nat, now: Clock)
    requires i <= |path| && Reach(fs, path[..i], now).Err?
    ensures Reach(fs, path, now) == Reach(fs, path[..i], now)
    decreases |path|
  {
    hide ReachNext;
    if i == |path| {
      assert path[..i] == path;
    } else {
      var front := path[..|path| - 1];
      assert front[..i] == path[..i];
      ReachStopped(fs, front, i, now);
    }
  }

  lemma ReachedDir(st: State, st': State, path: seq<Name>, i: nat, ref: DirRef, now: Clock, id: Id)
    requires TreeOk(st'.dirs, st'.files, st'.nextId) && i < |path| && Reached(st, st', path, i, ref, now)
    requires Child(st'.dirs, st'.files, ref, path[i]) == Some(DirId(id))
    ensures Reached(st, st', path, i + 1, NonRoot(id), now)
  {
    hide TreeOk, Child, View, Reach, EntryAt;
    ReachOneMore(View(st), path, i, now);
    EntryIsChild(st', ref, path[i]);
  }

  lemma ReachedFile(st: State, st': State, path: seq<Name>, i: nat, ref: DirRef, now: Clock, id: Id)
    requires TreeOk(st'.dirs, st'.files, st'.nextId) && i < |path| && Reached(st, st', path, i, ref, now)
    requires Child(st'.dirs, st'.files, ref, path[i]) == Some(FileId(id))
    ensures Utf8(Join(path[..i])) && Reach(View(st), path, now) == Err(FileCollision(Join(path[..i])))
  {
    hide TreeOk, Child, View, Reach, EntryAt;
    JoinUtf8(path[..i]);
    ReachOneMore(View(st), path, i, now);
    EntryIsChild(st', ref, path[i]);
    ReachStopped(View(st), path, i + 1, now);
  }

  lemma ReachedNew(st: State, st1: State, st2: State, path: seq<Name>, i: nat, ref: DirRef, now: Clock)
    requires TreeOk(st1.dirs, st1.files, st1.nextId) && i < |path| && Reached(st, st1, path, i, ref, now)
    requires Child(st1.dirs, st1.files, ref, path[i]).None? && 0 < st1.nextId < U64_LIMIT
    requires st2.dirs == st1.dirs[st1.nextId := Directory(st1.nextId, ref, path[i], now(st1.nextId))]
    requires SameFiles(st1, st2) && st2.nextId == st1.nextId + 1
    ensures Reached(st, st2, path, i + 1, NonRoot(st1.nextId), now)
  {
    hide TreeOk, Child, Reach, EntryAt, FileViews, Contents;
    ReachOneMore(View(st), path, i, now);
    EntryIsChild(st1, ref, path[i]);
  }

  function IdReply(r: Result<Id, PathAccessError>): Outcome {
    match r
    case Ok(id) => Made(id)
    case Err(error) => RefusedAt(error)
  }

  function DoneReply(r: Result<(), PathAccessError>): Outcome {
    match r
    case Ok(_) => Done
    case Err(error) => RefusedAt(error)
  }

  /** A path finds the same thing in the view. */
  lemma LookedUp(st: State, sha3: Hash, path: Utf8String)
    requires Inv(st, sha3)
    ensures FindAt(View(st), path) == ItemAtPath(st.dirs, st.files, path)
  {
    hide Inv, TreeOk, View, Resolve, Find;
    ContentIs(st, sha3);
    if Parsed(path).Ok? {
      FindIsResolve(st, Parsed(path).value);
    }
  }

  lemma DropFileIs(fs: FileSystem, path: Utf8String)
    ensures Perform(fs, DropFileAt(path)) ==
            match FindAt(fs, path)
            case Some(AtFile(id)) => (fs.(files := fs.files - {id}), Done)
            case _ => (fs, RefusedAt(NoFileAt(path)))
  {
    hide FindAt;
  }

  lemma DropDirIs(fs: FileSystem, path: Utf8String)
    ensures Perform(fs, DropDirAt(path)) ==
            match FindAt(fs, path)
            case Some(AtDir(id)) => (Pruned(fs, id), Done)
            case _ => (fs, RefusedAt(ItemNotFound))
  {
    hide FindAt, Pruned;
  }

  /** A path without names is refused, and so is one whose parents cannot be reached. */
  lemma NoParent(fs: FileSystem, path: Utf8String, modifTime: U64, content: seq<Byte>, now: Clock)
    ensures ReachParent(fs, path, now).Err? ==>
              var error := ReachParent(fs, path, now).error;
              && Perform(fs, MakeDirAt(path, modifTime, now)) == (fs, RefusedAt(error))
              && (!IsFile(FindAt(fs, path)) ==> Perform(fs, WriteAt(path, modifTime, content, now)) == (fs, RefusedAt(error)))
    ensures NamesOf(path).Err? ==> ReachParent(fs, path, now) == Err(NamesOf(path).error)
    ensures NamesOf(path).Ok? && Reach(fs, Front(NamesOf(path).value), now).Err? ==>
              ReachParent(fs, path, now) == Err(Reach(fs, Front(NamesOf(path).value), now).error)
  {
    hide Reach, FindAt, ReachParent, NamesOf, Front, Find;
    ParentErrors(fs, path, now);
  }

  lemma ParentErrors(fs: FileSystem, path: Utf8String, now: Clock)
    ensures NamesOf(path).Err? ==> ReachParent(fs, path, now) == Err(NamesOf(path).error)
    ensures NamesOf(path).Ok? && Reach(fs, Front(NamesOf(path).value), now).Err? ==>
              ReachParent(fs, path, now) == Err(Reach(fs, Front(NamesOf(path).value), now).error)
  {
    hide Reach, NamesOf;
  }

  /** What is left to do, and to answer, once the parent of a path has been reached. */
  lemma ParentReached(st: State, st1: State, path: Utf8String, names: seq<Name>, ref: DirRef, modifTime: U64,
                      content: seq<Byte>, now: Clock)
    requires Parsed(path) == Ok(names) && names != []
    requires Reach(View(st), Front(names), now) == Ok(Spot(View(st1), ref))
    ensures var fs, fs1, name := View(st), View(st1), names[|names| - 1];
            var check := NameCheck(st1.dirs, st1.files, name, ref);
            && Perform(fs, MakeDirAt(path, modifTime, now)) ==
               (if check.Err? then (fs, RefusedAt(ArchiveFailed(check.error)))
                else (WithDir(fs1, ref, name, modifTime), Made(fs1.nextId)))
            && (!IsFile(FindAt(fs, path)) ==>
                  Perform(fs, WriteAt(path, modifTime, content, now)) ==
                  (if check.Err? then (fs, RefusedAt(ArchiveFailed(check.error)))
                   else (WithFile(fs1, ref, name, modifTime, content), Done)))
  {
    hide Reach, FindAt, View, NameCheck, Admit, WithDir, WithFile;
    AdmitIsNameCheck(st1, ref, names[|names| - 1]);
  }

  lemma DirViewed(st: State, st': State, ref: DirRef, name: Name, modifTime: U64)
    requires 0 < st.nextId < U64_LIMIT && SameFiles(st, st') && st'.nextId == st.nextId + 1
    requires st'.dirs == st.dirs[st.nextId := Directory(st.nextId, ref, name, modifTime)]
    ensures View(st') == WithDir(View(st), ref, name, modifTime) && View(st).nextId == st.nextId
  {
    hide Contents, FileViews;
  }

  lemma FileViewed(st: State, st': State, ref: DirRef, name: Name, modifTime: U64, content: seq<Byte>)
    requires 0 < st.nextId < U64_LIMIT && st'.dirs == st.dirs && st'.nextId == st.nextId + 1
    requires st.nextId in st'.files && st'.files == st.files[st.nextId := st'.files[st.nextId]]
    requires var file := st'.files[st.nextId]; file.parentDir == ref && file.name == name && file.modifTime == modifTime
    requires Contents(st'.disk, st'.files) == Contents(st.disk, st.files)[st.nextId := content]
    ensures View(st') == WithFile(View(st), ref, name, modifTime, content) && View(st).nextId == st.nextId
  {
    hide Blob, FileViews;
    ViewsSet(st.files, Contents(st.disk, st.files), st.nextId, st'.files[st.nextId], content);
  }

  lemma ReplacedAt(st: State, st': State, path: Utf8String, id: Id, modifTime: U64, content: seq<Byte>, now: Clock)
    requires FindAt(View(st), path) == Some(AtFile(id))
    requires id in st.files && id in st'.files && st'.files == st.files[id := st'.files[id]]
    requires st'.dirs == st.dirs && st'.nextId == st.nextId
    requires var file, file' := st.files[id], st'.files[id];
             file'.parentDir == file.parentDir && file'.name == file.name && file'.modifTime == modifTime
    requires Contents(st'.disk, st'.files) == Contents(st.disk, st.files)[id := content]
    ensures Perform(View(st), WriteAt(path, modifTime, content, now)) == (View(st'), Done)
  {
    hide FindAt, ReachParent, View, Replaced, Contents;
    ReplacedView(st, st', id, modifTime, content);
  }

  // -- Results of the operations -----------------------------------------------------------------

  /** The name is free in the parent, created or not, exactly if nothing was at the path before. */
  lemma FreeIff(st: State, st1: State, sha3: Hash, path: seq<Name>, ref: DirRef)
    requires Inv(st, sha3) && Inv(st1, sha3) && path != []
    requires ref in Refs(st1.dirs) && RouteTo(st1.dirs, ref) == Front(path)
    requires NewIfMissing(st, st1, Front(path), ref)
    ensures NameCheck(st1.dirs, st1.files, path[|path| - 1], ref).Ok? <==> Resolve(st.dirs, st.files, path).None?
    ensures NameCheck(st1.dirs, st1.files, path[|path| - 1], ref).Err? ==> st1 == st
  {
    hide Inv, TreeOk, Child, NamesIn, Refs, RouteTo;
    ContentIs(st1, sha3);
    var i, name := |path| - 1, path[|path| - 1];
    assert path[..i + 1] == path;
    NoChild(st1.dirs, st1.files, ref, name);
    if st1 == st {
      NextPlace(st.dirs, st.files, st.nextId, path, i, ref);
    }
  }

  /** Paths to items survive as long as the items keep their place and name. */
  lemma FoundAgain(dirs: Dirs, files: Files, nextId: nat, dirs': Dirs, files': Files, nextId': nat)
    requires TreeOk(dirs, files, nextId) && TreeOk(dirs', files', nextId')
    requires forall id :: id in dirs ==> id in dirs' && dirs'[id] == dirs[id]
    requires forall id :: id in files ==>
               id in files' && files'[id].parentDir == files[id].parentDir && files'[id].name == files[id].name
    ensures StillFound(dirs, files, dirs', files')
  {
    hide TreeOk, Resolve, RouteTo;
    forall path: seq<Name>, k | Resolve(dirs, files, path) == Some(Place(k))
      ensures Resolve(dirs', files', path) == Some(Place(k))
    {
      ResolvesToItem(dirs, files, nextId, path, k);
      ResolvesToItem(dirs', files', nextId', path, k);
      Climb(dirs, files, nextId, k);
      RouteKept(dirs, files, nextId, dirs', Lookup(dirs, files, k).value.Parent());
    }
  }

  /** The new item is at the end of the path. */
  lemma AtTheEnd(st: State, sha3: Hash, path: seq<Name>, k: ItemId)
    requires Inv(st, sha3) && path != [] && Lookup(st.dirs, st.files, k).Some?
    requires RouteTo(st.dirs, Lookup(st.dirs, st.files, k).value.Parent()) == Front(path)
    requires Lookup(st.dirs, st.files, k).value.Name() == path[|path| - 1]
    ensures Resolve(st.dirs, st.files, path) == Some(Place(k))
  {
    hide Inv, TreeOk, Resolve, RouteTo, Group, Refs, ChildrenOf, Lookup;
    ContentIs(st, sha3);
    assert path == Front(path) + [path[|path| - 1]];
    ResolvesToItem(st.dirs, st.files, st.nextId, path, k);
  }

  /** Behind a file there is nothing. */
  lemma ClearToFile(dirs: Dirs, files: Files, path: seq<Name>, id: Id)
    requires path != [] && Resolve(dirs, files, path) == Some(AtFile(id))
    ensures ClearWay(dirs, files, Front(path))
  {
    hide Resolve;
    forall i | 0 <= i <= |Front(path)|
      ensures !IsFile(Resolve(dirs, files, Front(path)[..i]))
    {
      assert Front(path)[..i] == path[..i];
      if IsFile(Resolve(dirs, files, path[..i])) {
        DeadEnd(dirs, files, path, i);
      }
    }
  }

  lemma FileReplaced(st: State, st': State, sha3: Hash, path: Utf8String, bytes: seq<Byte>, modifTime: U64, now: Clock,
                     id: Id)
    requires Inv(st, sha3) && Inv(st', sha3) && ItemAtPath(st.dirs, st.files, path) == Some(AtFile(id))
    requires id in st.files && id in st'.files && st'.dirs == st.dirs && st'.files == st.files[id := st'.files[id]]
    requires st'.nextId == st.nextId
    requires var file, file' := st.files[id], st'.files[id];
             && file'.parentDir == file.parentDir && file'.name == file.name
             && file'.modifTime == modifTime && file'.contentLen == |bytes|
    requires Contents(st'.disk, st'.files) == Contents(st.disk, st.files)[id := bytes]
    ensures Writable(st.dirs, st.files, path) && Written(st, st', Parsed(path).value, bytes, modifTime, now, id)
    ensures Perform(View(st), WriteAt(path, modifTime, bytes, now)) == (View(st'), Done)
  {
    hide Inv, TreeOk, Contents, StillFound, Group, Refs, ChildrenOf, Written, View, Perform, OnlyMissing;
    LookedUp(st, sha3, path);
    ReplacedAt(st, st', path, id, modifTime, bytes, now);
    FilePathWritable(st.dirs, st.files, path, id);
    RewrittenInPlace(st, st', sha3, Parsed(path).value, bytes, modifTime, now, id);
  }

  lemma RewrittenInPlace(st: State, st': State, sha3: Hash, path: seq<Name>, bytes: seq<Byte>, modifTime: U64, now: Clock,
                         id: Id)
    requires Inv(st, sha3) && Inv(st', sha3) && path != [] && Resolve(st.dirs, st.files, path) == Some(AtFile(id))
    requires id in st.files && id in st'.files && st'.dirs == st.dirs && st'.files == st.files[id := st'.files[id]]
    requires var file, file' := st.files[id], st'.files[id];
             && file'.parentDir == file.parentDir && file'.name == file.name
             && file'.modifTime == modifTime && file'.contentLen == |bytes|
    requires Contents(st'.disk, st'.files) == Contents(st.disk, st.files)[id := bytes]
    ensures Written(st, st', path, bytes, modifTime, now, id)
  {
    hide Inv, TreeOk, Contents, ClearWay, StillFound, Group, Refs, OnlyMissing, ChildrenOf, Resolve;
    ContentIs(st, sha3);
    ContentIs(st', sha3);
    NothingMissing(st.dirs, st.files, Front(path), now);
    FoundAgain(st.dirs, st.files, st.nextId, st'.dirs, st'.files, st'.nextId);
    StillAt(st, st', path, FileId(id));
  }

  lemma NothingMissing(dirs: Dirs, files: Files, path: seq<Name>, now: Clock)
    ensures OnlyMissing(dirs, files, dirs, path, now)
  {
  }

  lemma StillAt(st: State, st': State, path: seq<Name>, k: ItemId)
    requires StillFound(st.dirs, st.files, st'.dirs, st'.files) && Resolve(st.dirs, st.files, path) == Some(Place(k))
    ensures Resolve(st'.dirs, st'.files, path) == Some(Place(k))
  {
  }

  lemma FileCreated(st: State, st1: State, st': State, sha3: Hash, path: seq<Name>, bytes: seq<Byte>, modifTime: U64,
                    now: Clock, ref: DirRef, id: Id)
    requires Inv(st, sha3) && Inv(st1, sha3) && Inv(st', sha3) && path != [] && SameFiles(st, st1)
    requires RouteTo(st1.dirs, ref) == Front(path)
    requires OnlyMissing(st.dirs, st.files, st1.dirs, Front(path), now)
    requires id == st1.nextId && id in st'.files && st'.dirs == st1.dirs
    requires st'.files == st1.files[id := st'.files[id]]
    requires var file := st'.files[id];
             && file.parentDir == ref && file.name == path[|path| - 1]
             && file.modifTime == modifTime && file.contentLen == |bytes|
    requires Contents(st'.disk, st'.files) == Contents(st1.disk, st1.files)[id := bytes]
    requires st'.nextId == st1.nextId + 1
    ensures Written(st, st', path, bytes, modifTime, now, id)
    ensures View(st') == WithFile(View(st1), ref, path[|path| - 1], modifTime, bytes) && View(st1).nextId == id
  {
    hide Inv, TreeOk, Contents, StillFound, Group, Refs, Resolve, WasMissing, View, WithFile;
    FileViewed(st1, st', ref, path[|path| - 1], modifTime, bytes);
    ContentIs(st, sha3);
    ContentIs(st1, sha3);
    ContentIs(st', sha3);
    FreshIdentifier(st1.dirs, st1.files, st1.nextId, FileId(id));
    AtTheEnd(st', sha3, path, FileId(id));
    FoundAgain(st.dirs, st.files, st.nextId, st'.dirs, st'.files, st'.nextId);
  }

  lemma DirWritten(st: State, st1: State, st': State, sha3: Hash, path: seq<Name>, modifTime: U64, now: Clock,
                   ref: DirRef, id: Id)
    requires Inv(st, sha3) && Inv(st1, sha3) && Inv(st', sha3) && path != [] && SameFiles(st, st1)
    requires ref in Refs(st1.dirs) && RouteTo(st1.dirs, ref) == Front(path)
    requires OnlyMissing(st.dirs, st.files, st1.dirs, Front(path), now)
    requires id == st1.nextId && st'.files == st1.files
    requires st'.dirs == st1.dirs[id := Directory(id, ref, path[|path| - 1], modifTime)]
    requires Contents(st'.disk, st'.files) == Contents(st1.disk, st1.files)
    requires st'.nextId == st1.nextId + 1
    ensures DirAdded(st, st', path, modifTime, now, id) && SameFiles(st, st')
    ensures View(st') == WithDir(View(st1), ref, path[|path| - 1], modifTime) && View(st1).nextId == id
  {
    hide Inv, TreeOk, Contents, StillFound, Group, Refs, Resolve, WasMissing, View, WithDir;
    DirViewed(st1, st', ref, path[|path| - 1], modifTime);
    ContentIs(st, sha3);
    ContentIs(st1, sha3);
    ContentIs(st', sha3);
    FreshIdentifier(st1.dirs, st1.files, st1.nextId, DirId(id));
    assert st'.dirs - {id} == st1.dirs;
    RouteKept(st1.dirs, st1.files, st1.nextId, st'.dirs, ref);
    AtTheEnd(st', sha3, path, DirId(id));
    FoundAgain(st.dirs, st.files, st.nextId, st'.dirs, st'.files, st'.nextId);
  }

  lemma WritableIfVacant(dirs: Dirs, files: Files, path: Utf8String)
    ensures !IsFile(ItemAtPath(dirs, files, path)) ==> (Writable(dirs, files, path) <==> Vacant(dirs, files, path))
  {
    hide Resolve, ClearWay, Parsed;
  }

  lemma FilePathWritable(dirs: Dirs, files: Files, path: Utf8String, id: Id)
    requires ItemAtPath(dirs, files, path) == Some(AtFile(id))
    ensures Writable(dirs, files, path)
  {
    hide ClearWay;
    ClearToFile(dirs, files, Parsed(path).value, id);
  }

  /** What has been written at a path is what is read there afterwards. */
  method WriteThenRead(archive: Archive, path: Utf8String, content: seq<Byte>, modifTime: U64, now: Clock)
    returns (read: Result<seq<Byte>, FileReaderError>)
    requires archive.Valid() && archive.HasRoom(|Split(path)|, |content|)
    requires Writable(archive.dirs, archive.files, path)
    modifies archive, archive.source, archive.coverage
    ensures archive.Valid() && read == Ok(content)
  {
    hide Inv, Parsed, Resolve, Split, RestOfFile, Contents, OnlyMissing, StillFound, ClearWay, View, Perform, Grew;
    ghost var st := archive.State();
    var paths := new WithPathsMut(archive);
    var written := paths.WriteFileAt(path, content, modifTime, now);
    ghost var id :| Written(st, archive.State(), Parsed(path).value, content, modifTime, now, id);
    assert Written(st, archive.State(), Parsed(path).value, content, modifTime, now, id);
    var reader := paths.ReadFileAt(path);
    read := reader.value.ReadToVec();
  }
}
