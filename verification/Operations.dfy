/** The effect of each operation on the state of an archive, and the proof that it keeps the invariant. */
module Operations {
  import opened Wrappers
  import opened Bytes
  import opened Names
  import opened Entries
  import opened Segments
  import opened Coverages
  import opened FileTable
  import opened Trees
  import opened Layouts
  import opened States

  /** The listings once a new item has joined its parent directory. */
  function Joined(content: map<DirRef, DirContent>, item: Item): map<DirRef, DirContent>
    requires item.Parent() in content
  {
    content[item.Parent() := AddChild(content[item.Parent()], item)]
  }

  function Left(content: map<DirRef, DirContent>, item: Item): map<DirRef, DirContent>
    requires item.Parent() in content
  {
    content[item.Parent() := RemoveChild(content[item.Parent()], item)]
  }

  function Renamed(content: map<DirRef, DirContent>, item: Item, name: Name): map<DirRef, DirContent>
    requires item.Parent() in content
  {
    var c := content[item.Parent()];
    content[item.Parent() := c.(names := c.names - {item.Name()} + {name})]
  }

  lemma ContentIs(st: State, sha3: Hash)
    requires Inv(st, sha3)
    ensures st.content == Group(st.dirs, st.files) && TreeOk(st.dirs, st.files, st.nextId)
    ensures st.content.Keys == Refs(st.dirs)
    ensures forall ref :: ref in st.content ==> st.content[ref] == ChildrenOf(st.dirs, st.files, ref)
  {
    InvParts(st, sha3);
    GroupEntries(st.dirs, st.files);
  }

  // -- Creating a directory ----------------------------------------------------------------------

  function AfterCreateDir(st: State, s: Slot, dir: Directory): State
    requires ValidSlot(st.segs, s) && s.DirSlot? && dir.parentDir in st.content
  {
    st.(disk := Write(st.disk, EntryAddr(st.segs, s), EncodeDir(dir)),
        segs := SetSlot(st.segs, s, Some(DirItem(dir))),
        dirs := st.dirs[dir.id := dir],
        content := Joined(st.content, DirItem(dir))[NonRoot(dir.id) := EMPTY_CONTENT],
        nextId := st.nextId + 1)
  }

  lemma CreateDirStep(st: State, sha3: Hash, s: Slot, dir: Directory)
    requires Inv(st, sha3)
    requires ValidSlot(st.segs, s) && s.DirSlot? && ItemAt(st.segs, s).None?
    requires dir.id == st.nextId && dir.parentDir in st.content && dir.name !in st.content[dir.parentDir].names
    ensures Inv(AfterCreateDir(st, s, dir), sha3)
    ensures Contents(AfterCreateDir(st, s, dir).disk, st.files) == Contents(st.disk, st.files)
    ensures dir.id !in st.dirs && dir.id !in st.content[dir.parentDir].dirs
    ensures |AfterCreateDir(st, s, dir).disk| == |st.disk|
  {
    hide Inv, Group, TreeOk, EncodeDir, Write, EntryAddr, Contents, Layout;
    var st', k, item := AfterCreateDir(st, s, dir), DirId(dir.id), DirItem(dir);
    ContentIs(st, sha3);
    DirChanged(st.dirs, st.files, dir);
    hide Changed;
    TreeInsert(st.dirs, st.files, st'.dirs, st'.files, k, item, st.nextId);
    NotListed(st, dir);
    assert SlotBytes(s, Some(item)) == EncodeDir(dir);
    SlotStep(st, st', sha3, s, k, Some(item));
  }

  lemma DirChanged(dirs: Dirs, files: Files, dir: Directory)
    ensures Changed(dirs, files, dirs[dir.id := dir], files, DirId(dir.id), Some(DirItem(dir)))
  {
  }

  lemma NotListed(st: State, dir: Directory)
    requires dir.id !in st.dirs && dir.parentDir in st.content
    requires st.content[dir.parentDir] == ChildrenOf(st.dirs, st.files, dir.parentDir)
    ensures dir.id !in st.content[dir.parentDir].dirs
  {
  }

  // -- Creating a file, replacing its content -----------------------------------------------------

  /** The content is written in its new zone, then the entry; the old zone, if any, has been freed before. */
  function AfterStoreFile(st: State, s: Slot, file: File, bytes: seq<Byte>): State
    requires ValidSlot(st.segs, s) && s.FileSlot?
  {
    var disk1 := Write(st.disk, file.contentAddr, bytes);
    st.(disk := Write(disk1, EntryAddr(st.segs, s), EncodeFile(file)),
        segs := SetSlot(st.segs, s, Some(FileItem(file))),
        files := st.files[file.id := file],
        used := Marked(FreedFor(st, file.id), BlobExtent(file)),
        len := |disk1|)
  }

  function AfterCreateFile(st: State, s: Slot, file: File, bytes: seq<Byte>): State
    requires ValidSlot(st.segs, s) && s.FileSlot? && file.parentDir in st.content
  {
    AfterStoreFile(st, s, file, bytes).(
      content := Joined(st.content, FileItem(file)),
      nextId := st.nextId + 1)
  }

  /** A zone for the content, chosen once the old zone of the file has been freed. */
  ghost predicate Placed(st: State, file: File, bytes: seq<Byte>, sha3: Hash) {
    && StoredFile(file, file.contentAddr, bytes, sha3)
    && file.contentAddr <= |st.disk| && |Write(st.disk, file.contentAddr, bytes)| < U64_LIMIT
    && DisjointFromAll(BlobExtent(file), FreedFor(st, file.id))
  }

  lemma CreateFileStep(st: State, sha3: Hash, s: Slot, file: File, bytes: seq<Byte>)
    requires Inv(st, sha3)
    requires ValidSlot(st.segs, s) && s.FileSlot? && ItemAt(st.segs, s).None?
    requires file.id == st.nextId && file.parentDir in st.content && file.name !in st.content[file.parentDir].names
    requires Placed(st, file, bytes, sha3)
    ensures var st' := AfterCreateFile(st, s, file, bytes);
            && Inv(st', sha3)
            && Contents(st'.disk, st'.files) == Contents(st.disk, st.files)[file.id := bytes]
            && |st'.disk| == |Write(st.disk, file.contentAddr, bytes)|
    ensures file.id !in st.files && file.id !in st.content[file.parentDir].files
  {
    hide Inv, Group, TreeOk, EncodeFile, Write, EntryAddr, Contents, Layout, SetSlot, DisjointFromAll, FreedFor, Marked;
    var st', k, item := AfterCreateFile(st, s, file, bytes), FileId(file.id), FileItem(file);
    ContentIs(st, sha3);
    FileChanged(st.dirs, st.files, file);
    hide Changed;
    TreeInsert(st.dirs, st.files, st'.dirs, st'.files, k, item, st.nextId);
    FileNotListed(st, file);
    FileStep(st, st', sha3, s, file, bytes);
  }

  lemma FileNotListed(st: State, file: File)
    requires file.id !in st.files && file.parentDir in st.content
    requires st.content[file.parentDir] == ChildrenOf(st.dirs, st.files, file.parentDir)
    ensures file.id !in st.content[file.parentDir].files
  {
  }

  lemma ReplaceFileStep(st: State, sha3: Hash, s: Slot, file: File, bytes: seq<Byte>)
    requires Inv(st, sha3)
    requires file.id in st.files
    requires ValidSlot(st.segs, s) && s.FileSlot? && ItemAt(st.segs, s) == Some(FileItem(st.files[file.id]))
    requires st.files[file.id].id == file.id
    requires file.parentDir == st.files[file.id].parentDir && file.name == st.files[file.id].name
    requires Placed(st, file, bytes, sha3)
    ensures var st' := AfterStoreFile(st, s, file, bytes);
            && Inv(st', sha3)
            && Contents(st'.disk, st'.files) == Contents(st.disk, st.files)[file.id := bytes]
            && |st'.disk| == |Write(st.disk, file.contentAddr, bytes)|
  {
    hide Inv, Group, TreeOk, EncodeFile, Write, EntryAddr, Contents, Layout, SetSlot, DisjointFromAll, FreedFor, Marked;
    var st', k := AfterStoreFile(st, s, file, bytes), FileId(file.id);
    var u, v := FileItem(st.files[file.id]), FileItem(file);
    ContentIs(st, sha3);
    FileChanged(st.dirs, st.files, file);
    hide Changed;
    TreeUpdate(st.dirs, st.files, st'.dirs, st'.files, k, u, v, st.nextId);
    SameListing(st, k, u);
    FileStep(st, st', sha3, s, file, bytes);
  }

  /** A listed name taken out and put back changes no listing. */
  lemma SameListing(st: State, k: ItemId, u: Item)
    requires Lookup(st.dirs, st.files, k) == Some(u) && u.Id() == k && u.Parent() in st.content
    requires st.content[u.Parent()] == ChildrenOf(st.dirs, st.files, u.Parent())
    ensures u.Name() in st.content[u.Parent()].names
    ensures Renamed(st.content, u, u.Name()) == st.content
  {
    ListedChild(st.dirs, st.files, k, u);
    var c := st.content[u.Parent()];
    assert c.names - {u.Name()} + {u.Name()} == c.names;
  }

  // -- Renaming ----------------------------------------------------------------------------------

  function WithName(item: Item, name: Name): (renamed: Item)
    ensures renamed.Id() == item.Id() && renamed.Parent() == item.Parent() && renamed.Name() == name
  {
    match item
    case DirItem(dir) => DirItem(dir.(name := name))
    case FileItem(file) => FileItem(file.(name := name))
  }

  /** Only the name field of the entry is written. */
  function AfterRename(st: State, s: Slot, u: Item, name: Name): State
    requires ValidSlot(st.segs, s) && Fits(s, Some(u)) && u.Parent() in st.content
  {
    st.(disk := Write(st.disk, EntryAddr(st.segs, s) + NAME_OFFSET_IN_ENTRY, EncodeName(name)),
        segs := SetSlot(st.segs, s, Some(WithName(u, name))),
        dirs := if u.DirItem? then st.dirs[u.dir.id := u.dir.(name := name)] else st.dirs,
        files := if u.FileItem? then st.files[u.file.id := u.file.(name := name)] else st.files,
        content := Renamed(st.content, u, name))
  }

  lemma RenameStep(st: State, sha3: Hash, s: Slot, u: Item, name: Name)
    requires Inv(st, sha3)
    requires ValidSlot(st.segs, s) && Fits(s, Some(u))
    requires ItemAt(st.segs, s) == Some(u) && Lookup(st.dirs, st.files, u.Id()) == Some(u)
    requires u.Parent() in st.content && name !in st.content[u.Parent()].names
    ensures var st' := AfterRename(st, s, u, name);
            && Inv(st', sha3)
            && Contents(st'.disk, st'.files) == Contents(st.disk, st.files)
            && |st'.disk| == |st.disk|
    ensures u.Name() in st.content[u.Parent()].names
  {
    hide Inv, Group, TreeOk, Write, EntryAddr, Contents, Layout, SlotBytes, EncodeName, Changed, Lookup, SetSlot, SameBlobs,
      ItemAt, ValidSlot, WithName, Renamed;
    var st', v := AfterRename(st, s, u, name), WithName(u, name);
    RenamedOnDisk(st, sha3, s, u, name);
    RenamedTree(st, sha3, s, u, name);
    FitsRenamed(s, u, name);
    SlotStep(st, st', sha3, s, u.Id(), Some(v));
  }

  lemma FitsRenamed(s: Slot, u: Item, name: Name)
    requires Fits(s, Some(u))
    ensures Fits(s, Some(WithName(u, name)))
  {
  }

  /** The maps and listings of the renamed item belong together. */
  lemma RenamedTree(st: State, sha3: Hash, s: Slot, u: Item, name: Name)
    requires Inv(st, sha3) && ValidSlot(st.segs, s) && Fits(s, Some(u))
    requires Lookup(st.dirs, st.files, u.Id()) == Some(u)
    requires u.Parent() in st.content && name !in st.content[u.Parent()].names
    ensures u.Name() in st.content[u.Parent()].names
    ensures var st' := AfterRename(st, s, u, name);
            && TreeOk(st'.dirs, st'.files, st.nextId) && st'.content == Group(st'.dirs, st'.files)
            && Changed(st.dirs, st.files, st'.dirs, st'.files, u.Id(), Some(WithName(u, name)))
            && SameBlobs(st.files, st'.files)
  {
    hide Inv, Group, TreeOk, Write, EntryAddr, SetSlot, SlotBytes, EncodeName;
    var st', v := AfterRename(st, s, u, name), WithName(u, name);
    ContentIs(st, sha3);
    NameChanged(st.dirs, st.files, u, name);
    SameListing(st, u.Id(), u);
    hide Changed, Lookup, SameBlobs, NamesIn;
    TreeUpdate(st.dirs, st.files, st'.dirs, st'.files, u.Id(), u, v, st.nextId);
  }

  lemma NameChanged(dirs: Dirs, files: Files, u: Item, name: Name)
    requires Lookup(dirs, files, u.Id()) == Some(u)
    ensures var dirs' := if u.DirItem? then dirs[u.dir.id := u.dir.(name := name)] else dirs;
            var files' := if u.FileItem? then files[u.file.id := u.file.(name := name)] else files;
            && Changed(dirs, files, dirs', files', u.Id(), Some(WithName(u, name)))
            && SameBlobs(files, files')
  {
  }

  /** Writing the name field alone is writing the whole entry of the renamed item. */
  lemma RenamedOnDisk(st: State, sha3: Hash, s: Slot, u: Item, name: Name)
    requires Inv(st, sha3)
    requires ValidSlot(st.segs, s) && Fits(s, Some(u)) && ItemAt(st.segs, s) == Some(u)
    ensures Write(st.disk, EntryAddr(st.segs, s) + NAME_OFFSET_IN_ENTRY, EncodeName(name)) ==
            Write(st.disk, EntryAddr(st.segs, s), SlotBytes(s, Some(WithName(u, name))))
  {
    hide Inv, EncodeName, EncodeDir, EncodeFile, At, Write, EncodeSegment, SegmentAddr, EncodedLen;
    StoredEntry(st, sha3, s, u);
    var addr := EntryAddr(st.segs, s);
    match u
    case DirItem(dir) =>
      var file: File :| true;
      RenameInPlace(st.disk, addr, name, dir, file);
    case FileItem(file) =>
      var dir: Directory :| true;
      RenameInPlace(st.disk, addr, name, dir, file);
  }

  lemma StoredEntry(st: State, sha3: Hash, s: Slot, u: Item)
    requires Inv(st, sha3)
    requires ValidSlot(st.segs, s) && Fits(s, Some(u)) && ItemAt(st.segs, s) == Some(u)
    ensures At(st.disk, EntryAddr(st.segs, s), SlotBytes(s, Some(u)))
  {
    hide Inv, EncodeDir, EncodeFile, At, EncodeSegment, SegmentAddr, EncodedLen, TableShape, SlotsMatch, TreeOk,
      Group, Layout, Tracks, DigestsMatch, Zeros, DirSlotBytes, FileSlotBytes;
    InvParts(st, sha3);
    var addr := SegmentAddr(st.segs, s.seg);
    assert At(st.disk, addr, EncodeSegment(st.segs[s.seg]));
    if s.DirSlot? {
      DirSlotAt(st.disk, addr, st.segs[s.seg], s.idx);
    } else {
      FileSlotAt(st.disk, addr, st.segs[s.seg], s.idx);
    }
  }

  // -- Removing ----------------------------------------------------------------------------------

  function AfterRemoveFile(st: State, s: Slot, file: File): State
    requires ValidSlot(st.segs, s) && s.FileSlot? && file.parentDir in st.content
  {
    st.(disk := Write(st.disk, EntryAddr(st.segs, s), Zeros(FILE_ENTRY_SIZE)),
        segs := SetSlot(st.segs, s, None),
        files := st.files - {file.id},
        content := Left(st.content, FileItem(file)),
        used := Unmarked(st.used, BlobExtent(file)))
  }

  lemma RemoveFileKeepsInv(st: State, sha3: Hash, s: Slot, file: File)
    requires Inv(st, sha3)
    requires ValidSlot(st.segs, s) && s.FileSlot? && ItemAt(st.segs, s) == Some(FileItem(file))
    requires file.id in st.files && st.files[file.id] == file
    ensures file.parentDir in st.content
    ensures file.id in st.content[file.parentDir].files && file.name in st.content[file.parentDir].names
    ensures var st' := AfterRemoveFile(st, s, file);
            && Inv(st', sha3)
            && Contents(st'.disk, st'.files) == Contents(st.disk, st.files) - {file.id}
            && |st'.disk| == |st.disk|
  {
    hide Inv, Group, TreeOk, Write, EntryAddr, Contents, Layout, SetSlot, Unmarked, Zeros;
    ContentIs(st, sha3);
    FileGone(st.dirs, st.files, file.id);
    hide Changed;
    TreeRemove(st.dirs, st.files, st.dirs, st.files - {file.id}, FileId(file.id), FileItem(file), st.nextId);
    SameListing(st, FileId(file.id), FileItem(file));
    ListedChild(st.dirs, st.files, FileId(file.id), FileItem(file));
    RemoveFileStep(st, AfterRemoveFile(st, s, file), sha3, s, file.id);
  }

  function AfterRemoveDir(st: State, s: Slot, dir: Directory): State
    requires ValidSlot(st.segs, s) && s.DirSlot? && dir.parentDir in st.content
  {
    st.(disk := Write(st.disk, EntryAddr(st.segs, s), Zeros(DIRECTORY_ENTRY_SIZE)),
        segs := SetSlot(st.segs, s, None),
        dirs := st.dirs - {dir.id},
        content := Left(st.content, DirItem(dir)) - {NonRoot(dir.id)})
  }

  lemma RemoveDirStep(st: State, sha3: Hash, s: Slot, dir: Directory)
    requires Inv(st, sha3)
    requires ValidSlot(st.segs, s) && s.DirSlot? && ItemAt(st.segs, s) == Some(DirItem(dir))
    requires dir.id in st.dirs && st.dirs[dir.id] == dir
    requires ChildrenOf(st.dirs, st.files, NonRoot(dir.id)) == EMPTY_CONTENT
    ensures dir.parentDir in st.content && NonRoot(dir.id) in st.content && dir.parentDir != NonRoot(dir.id)
    ensures st.content[NonRoot(dir.id)] == EMPTY_CONTENT
    ensures dir.id in st.content[dir.parentDir].dirs && dir.name in st.content[dir.parentDir].names
    ensures var st' := AfterRemoveDir(st, s, dir);
            && Inv(st', sha3)
            && Contents(st'.disk, st'.files) == Contents(st.disk, st.files)
            && |st'.disk| == |st.disk|
  {
    hide Inv, Group, TreeOk, Write, EntryAddr, Contents, Layout, SetSlot, Zeros, ChildrenOf;
    ContentIs(st, sha3);
    DirGone(st.dirs, st.files, dir.id);
    hide Changed, SlotBytes;
    TreeRemove(st.dirs, st.files, st.dirs - {dir.id}, st.files, DirId(dir.id), DirItem(dir), st.nextId);
    SameListing(st, DirId(dir.id), DirItem(dir));
    ListedChild(st.dirs, st.files, DirId(dir.id), DirItem(dir));
    assert NonRoot(dir.id) in Refs(st.dirs);
    EmptyDirSlot(s);
    SlotStep(st, AfterRemoveDir(st, s, dir), sha3, s, DirId(dir.id), None);
  }

  lemma EmptyDirSlot(s: Slot)
    requires s.DirSlot?
    ensures Fits(s, None) && SlotBytes(s, None) == Zeros(DIRECTORY_ENTRY_SIZE)
  {
  }

  lemma DirGone(dirs: Dirs, files: Files, id: Id)
    ensures Changed(dirs, files, dirs - {id}, files, DirId(id), None)
    ensures SameBlobs(files, files)
  {
  }
}
