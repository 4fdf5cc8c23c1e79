/** Reading an archive through paths instead of identifiers. */
module PathReading {
  import opened Wrappers
  import opened Bytes
  import opened Sequences
  import opened Names
  import opened Entries
  import opened FileTable
  import opened States
  import opened Operations
  import opened Archives
  import opened Paths
  import opened Routes

  datatype PathAccessError =
    | PathFailed(path: PathError)
    | ArchiveFailed(error: ArchiveError)
    | FileExistsAtPath
    | FileCollision(collision: Utf8String)
    | FileAlreadyExists(at: Utf8String)
    | NoFileAt(missing: Utf8String)
    | ItemNotFound
    | PathIsEmpty

  /** What a path means in a file table: nothing, if it cannot be parsed. */
  ghost function ItemAtPath(dirs: Dirs, files: Files, path: Utf8String): Option<ItemIdOrRoot> {
    if Parsed(path).Err? then None else Resolve(dirs, files, Parsed(path).value)
  }

  /** The full path of an item. */
  ghost function PathOf(dirs: Dirs, item: Item): seq<Byte> {
    Join(RouteOf(dirs, item))
  }

  class WithPaths {
    const archive: Archive

    constructor (archive: Archive)
      ensures this.archive == archive
    {
      this.archive := archive;
    }

    /** Climbs to the root, then writes the names down in the opposite order. */
    method ComputeItemPath(itemName: Name, firstParentDir: DirRef) returns (path: Utf8String)
      requires archive.Valid()
      ensures path == Join(RouteTo(archive.dirs, firstParentDir) + [itemName])
    {
      hide Inv, TreeOk, Utf8, ValidName, Join;
      ghost var dirs := archive.dirs;
      ghost var route := RouteTo(dirs, firstParentDir);
      ContentIs(archive.State(), archive.sha3);
      var components: seq<Name> := [];
      var next := firstParentDir;
      while true
        invariant route == RouteTo(dirs, next) + Reversed(components)
        decreases RefNumber(next)
      {
        if next.Root? {
          break;
        }
        var curr := archive.GetDir(next.id);
        if curr.None? {
          break;
        }
        Climb(dirs, archive.files, archive.nextId, DirId(next.id));
        ReversedSnoc(components, curr.value.name);
        components := components + [curr.value.name];
        next := curr.value.parentDir;
      }
      assert route == Reversed(components);

      SlashedIsJoin(route, itemName);
      JoinUtf8(route + [itemName]);
      path := WriteDown(components, itemName);
    }

    method ComputeDirPath(id: Id) returns (r: Result<Utf8String, PathAccessError>)
      requires archive.Valid()
      ensures r.Ok? <==> id in archive.dirs
      ensures r.Ok? ==> r.value == PathOf(archive.dirs, DirItem(archive.dirs[id]))
      ensures r.Err? ==> r.error == ArchiveFailed(DirectoryNotFound)
    {
      var dir := archive.GetDir(id);
      if dir.None? {
        return Err(ArchiveFailed(DirectoryNotFound));
      }
      var path := ComputeItemPath(dir.value.name, dir.value.parentDir);
      r := Ok(path);
    }

    method ComputeFilePath(id: Id) returns (r: Result<Utf8String, PathAccessError>)
      requires archive.Valid()
      ensures r.Ok? <==> id in archive.files
      ensures r.Ok? ==> r.value == PathOf(archive.dirs, FileItem(archive.files[id]))
      ensures r.Err? ==> r.error == ArchiveFailed(ArchiveError.FileNotFound)
    {
      var file := archive.GetFile(id);
      if file.None? {
        return Err(ArchiveFailed(ArchiveError.FileNotFound));
      }
      var path := ComputeItemPath(file.value.name, file.value.parentDir);
      r := Ok(path);
    }

    /** Descends from the root, and stops at the first component that is missing or that is behind a file. */
    method GetItemAt(path: Utf8String) returns (r: Option<ItemIdOrRoot>)
      requires archive.Valid()
      ensures r == ItemAtPath(archive.dirs, archive.files, path)
    {
      hide Inv, TreeOk, Refs, Child, Lookup, Resolve, Parsed;
      ghost var dirs, files := archive.dirs, archive.files;
      ContentIs(archive.State(), archive.sha3);
      var parsed := PathInArchive.New(path);
      if parsed.Err? {
        return None;
      }
      var components := parsed.value.names;
      var curr := AtRoot;
      RootIsThere(dirs, files, components);
      for i := 0 to |components|
        invariant Resolve(dirs, files, components[..i]) == Some(curr)
      {
        ResolveNext(dirs, files, components, i);
        if curr.AtFile? {
          DeadEnd(dirs, files, components, i);
          return None;
        }
        var ref := if curr.AtRoot? then Root else NonRoot(curr.dir);
        var found := FindChild(archive, ref, components[i]);
        if found.Err? || found.value.None? {
          PlaceIsLive(dirs, files, archive.nextId, components[..i], ref);
          NothingBehind(dirs, files, components, i + 1);
          return None;
        }
        curr := Place(found.value.value.Id());
      }
      assert components[..|components|] == components;
      r := Some(curr);
    }

    /** The directory at a path; the root is not one. */
    method GetDirAt(path: Utf8String) returns (r: Option<Directory>)
      requires archive.Valid()
      ensures match ItemAtPath(archive.dirs, archive.files, path)
              case Some(AtDir(id)) => id in archive.dirs && r == Some(archive.dirs[id]) && archive.dirs[id].id == id
              case _ => r == None
    {
      var at := GetItemAt(path);
      if at.None? || !at.value.AtDir? {
        return None;
      }
      LivePlace(archive.State(), archive.sha3, path, DirId(at.value.dir));
      r := archive.GetDir(at.value.dir);
    }

    method GetFileAt(path: Utf8String) returns (r: Option<File>)
      requires archive.Valid()
      ensures match ItemAtPath(archive.dirs, archive.files, path)
              case Some(AtFile(id)) => id in archive.files && r == Some(archive.files[id]) && archive.files[id].id == id
              case _ => r == None
    {
      var at := GetItemAt(path);
      if at.None? || !at.value.AtFile? {
        return None;
      }
      LivePlace(archive.State(), archive.sha3, path, FileId(at.value.file));
      r := archive.GetFile(at.value.file);
    }
  }

  /** The child of a directory that has the given name. */
  method FindChild(archive: Archive, ref: DirRef, name: Name) returns (r: Result<Option<Item>, ArchiveError>)
    requires archive.Valid()
    ensures r.Ok? <==> ref in Refs(archive.dirs)
    ensures r.Err? ==> r.error == DirectoryNotFound
    ensures r.Ok? ==> match Child(archive.dirs, archive.files, ref, name)
                      case None => r.value == None
                      case Some(k) =>
                        r.value == Lookup(archive.dirs, archive.files, k) && r.value.Some? && r.value.value.Id() == k
  {
    hide Inv, TreeOk, Child, Refs;
    ghost var dirs, files := archive.dirs, archive.files;
    ContentIs(archive.State(), archive.sha3);
    var listed := archive.ReadDir(ref);
    if listed.Err? {
      return Err(listed.error);
    }
    var items := listed.value;
    for i := 0 to |items|
      invariant forall j :: 0 <= j < i ==> items[j].Name() != name
    {
      if items[i].Name() == name {
        assert items[i] in items;
        ChildIs(dirs, files, archive.nextId, ref, name, items[i].Id());
        return Ok(Some(items[i]));
      }
    }
    NoneNamed(dirs, files, archive.nextId, ref, name, items);
    r := Ok(None);
  }

  /** The names in the opposite order, each with a slash behind it, then the last name; of exactly the predicted size. */
  method WriteDown(components: seq<Name>, itemName: Name) returns (name: seq<Byte>)
    ensures name == Slashed(Reversed(components)) + itemName
    ensures |name| == TotalLen(components) + |components| + |itemName|
  {
    var predictedSize := TotalLen(components) + |components| + |itemName|;
    name := [];
    var i := |components|;
    assert components[i..] == [];
    while i > 0
      invariant 0 <= i <= |components|
      invariant name == Slashed(Reversed(components[i..]))
      invariant |name| == TotalLen(components[i..]) + |components| - i
    {
      i := i - 1;
      assert components[i..][0] == components[i] && components[i..][1..] == components[i + 1..];
      SlashedSnoc(Reversed(components[i + 1..]), components[i]);
      name := name + components[i];
      name := name + [SLASH];
    }
    assert components[0..] == components;
    name := name + itemName;
    assert |name| == predictedSize;
  }

  // -- Proofs ------------------------------------------------------------------------------------

  function TotalLen(names: seq<Name>): nat {
    if names == [] then 0 else |names[0]| + TotalLen(names[1..])
  }

  /** Each name followed by a slash. */
  function Slashed(names: seq<Name>): seq<Byte> {
    if names == [] then [] else Slashed(names[..|names| - 1]) + names[|names| - 1] + [SLASH]
  }

  lemma SlashedSnoc(names: seq<Name>, name: Name)
    ensures Slashed(names + [name]) == Slashed(names) + name + [SLASH]
  {
    assert (names + [name])[..|names|] == names;
  }

  lemma {:induction false} SlashedIsJoin(names: seq<Name>, last: Name)
    ensures Slashed(names) + last == Join(names + [last])
  {
    JoinSnoc(names, last);
    if names != [] {
      var front, name := names[..|names| - 1], names[|names| - 1];
      assert names == front + [name];
      SlashedIsJoin(front, name);
      hide Join;
      calc {
        Slashed(names) + last;
        (Slashed(front) + name) + [SLASH] + last;
        Join(names) + [SLASH] + last;
        Join(names + [last]);
      }
    }
  }

  lemma NoneNamed(dirs: Dirs, files: Files, nextId: nat, ref: DirRef, name: Name, items: seq<Item>)
    requires TreeOk(dirs, files, nextId)
    requires forall item :: item in items <==> Lookup(dirs, files, item.Id()) == Some(item) && item.Parent() == ref
    requires forall j :: 0 <= j < |items| ==> items[j].Name() != name
    ensures Child(dirs, files, ref, name).None?
  {
    hide TreeOk;
    forall k
      ensures !IsChild(dirs, files, ref, name, k)
    {
      if Lookup(dirs, files, k).Some? {
        var item := Lookup(dirs, files, k).value;
        Climb(dirs, files, nextId, k);
        assert item.Parent() == ref ==> item in items;
      }
    }
  }

  lemma PlaceIsLive(dirs: Dirs, files: Files, nextId: nat, path: seq<Name>, ref: DirRef)
    requires TreeOk(dirs, files, nextId) && Resolve(dirs, files, path) == Some(PlaceOf(ref))
    ensures ref in Refs(dirs)
  {
    ResolvesToDir(dirs, files, nextId, path, ref);
  }

  lemma RootIsThere(dirs: Dirs, files: Files, path: seq<Name>)
    ensures Resolve(dirs, files, path[..0]) == Some(AtRoot)
  {
  }

  lemma ResolveNext(dirs: Dirs, files: Files, path: seq<Name>, i: nat)
    requires i < |path|
    ensures Resolve(dirs, files, path[..i + 1]) == Below(dirs, files, Resolve(dirs, files, path[..i]), path[i])
  {
    hide Below;
    assert path[..i + 1] == path[..i] + [path[i]];
    assert path[..i + 1][..i] == path[..i];
  }

  lemma NothingBehind(dirs: Dirs, files: Files, path: seq<Name>, i: nat)
    requires i <= |path| && Resolve(dirs, files, path[..i]).None?
    ensures Resolve(dirs, files, path).None?
  {
    if i < |path| {
      DeadEnd(dirs, files, path, i);
    } else {
      assert path[..i] == path;
    }
  }

  lemma LivePlace(st: State, sha3: Hash, path: Utf8String, k: ItemId)
    requires Inv(st, sha3) && ItemAtPath(st.dirs, st.files, path) == Some(Place(k))
    ensures Lookup(st.dirs, st.files, k).Some? && Lookup(st.dirs, st.files, k).value.Id() == k
  {
    hide Inv, TreeOk;
    ContentIs(st, sha3);
    ResolvesToItem(st.dirs, st.files, st.nextId, Parsed(path).value, k);
    Climb(st.dirs, st.files, st.nextId, k);
  }

  /** Looking up the computed path of a live item finds the item again. */
  lemma PathLeadsBack(dirs: Dirs, files: Files, nextId: nat, k: ItemId)
    requires TreeOk(dirs, files, nextId) && Lookup(dirs, files, k).Some?
    ensures var path := PathOf(dirs, Lookup(dirs, files, k).value);
            Utf8(path) && ItemAtPath(dirs, files, path) == Some(Place(k))
  {
    hide TreeOk;
    var route := RouteOf(dirs, Lookup(dirs, files, k).value);
    PathRoundTrip(route);
    ResolvesToItem(dirs, files, nextId, route, k);
  }

  /** The computed path of what is found at a path is that path, normalised. */
  lemma PathIsNormalised(dirs: Dirs, files: Files, nextId: nat, path: Utf8String, k: ItemId)
    requires TreeOk(dirs, files, nextId) && ItemAtPath(dirs, files, path) == Some(Place(k))
    ensures Lookup(dirs, files, k).Some?
    ensures PathOf(dirs, Lookup(dirs, files, k).value) == Join(Parsed(path).value)
  {
    hide TreeOk;
    ResolvesToItem(dirs, files, nextId, Parsed(path).value, k);
  }
}
