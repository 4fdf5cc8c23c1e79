/** The check of the file table that is made when an archive is opened. */
module Health {
  import opened Wrappers
  import opened Names
  import opened Entries
  import opened FileTable
  import opened Rescans

  datatype FileTableCorrectnessError =
    | DuplicateDirectoryId(dirId: Id, dirName: Name)
    | DuplicateFileId(fileId: Id, fileName: Name)
    | DuplicateItemInDirName(itemId: ItemId, itemName: Name, parentDirId: DirRef)

  // -- Flattening the slots ----------------------------------------------------------------------

  function Flatten<T>(rows: seq<seq<Option<T>>>): seq<T> {
    if rows == [] then [] else Filled(rows[0]) + Flatten(rows[1..])
  }

  function DirRows(segs: Segs): seq<seq<Option<Directory>>> {
    seq(|segs|, i requires 0 <= i < |segs| => segs[i].dirs)
  }

  function FileRows(segs: Segs): seq<seq<Option<File>>> {
    seq(|segs|, i requires 0 <= i < |segs| => segs[i].files)
  }

  /** All directories of the table, in the order of their slots. */
  function FilledDirs(segs: Segs): seq<Directory> {
    Flatten(DirRows(segs))
  }

  function FilledFiles(segs: Segs): seq<File> {
    Flatten(FileRows(segs))
  }

  // -- What is checked ---------------------------------------------------------------------------

  ghost predicate NoRepeat<T>(s: seq<T>) {
    forall i, j :: 0 <= i < j < |s| ==> s[i] != s[j]
  }

  function DirIds(ds: seq<Directory>): seq<Id> {
    seq(|ds|, i requires 0 <= i < |ds| => ds[i].id)
  }

  /** The identifier of each file, along with the directory that it is in. */
  function FileKeys(fs: seq<File>): seq<(DirRef, Id)> {
    seq(|fs|, i requires 0 <= i < |fs| => (fs[i].parentDir, fs[i].id))
  }

  /** The place of each item: the directory that it is in, and its name. */
  function DirPlaces(ds: seq<Directory>): seq<(DirRef, Name)> {
    seq(|ds|, i requires 0 <= i < |ds| => (ds[i].parentDir, ds[i].name))
  }

  function FilePlaces(fs: seq<File>): seq<(DirRef, Name)> {
    seq(|fs|, i requires 0 <= i < |fs| => (fs[i].parentDir, fs[i].name))
  }

  /** Directory identifiers are globally distinct, file identifiers and names are distinct within a directory. */
  ghost predicate Healthy(ds: seq<Directory>, fs: seq<File>) {
    && NoRepeat(DirIds(ds))
    && NoRepeat(FileKeys(fs))
    && NoRepeat(DirPlaces(ds) + FilePlaces(fs))
  }

  /** The identifier of each directory, along with the directory that it is in. */
  function DirKeys(ds: seq<Directory>): seq<(DirRef, Id)> {
    seq(|ds|, i requires 0 <= i < |ds| => (ds[i].parentDir, ds[i].id))
  }

  // -- What is reported --------------------------------------------------------------------------

  /** `dir` has the identifier of a directory before it. */
  function RegisterError(before: seq<Directory>, dir: Directory): seq<FileTableCorrectnessError> {
    if dir.id in DirIds(before) then [DuplicateDirectoryId(dir.id, dir.name)] else []
  }

  /** `dir` has the identifier, and then the name, of a directory before it in the same parent. */
  function DirError(before: seq<Directory>, dir: Directory): seq<FileTableCorrectnessError> {
    (if (dir.parentDir, dir.id) in DirKeys(before) then [DuplicateDirectoryId(dir.id, dir.name)] else []) +
    (if (dir.parentDir, dir.name) in DirPlaces(before)
    then [DuplicateItemInDirName(DirId(dir.id), dir.name, dir.parentDir)] else [])
  }

  /** `file` has the identifier of a file, and then the name of an item, before it in the same parent. */
  function FileError(ds: seq<Directory>, before: seq<File>, file: File): seq<FileTableCorrectnessError> {
    (if (file.parentDir, file.id) in FileKeys(before) then [DuplicateFileId(file.id, file.name)] else []) +
    (if (file.parentDir, file.name) in DirPlaces(ds) + FilePlaces(before)
    then [DuplicateItemInDirName(FileId(file.id), file.name, file.parentDir)] else [])
  }

  function RegisterErrors(ds: seq<Directory>): seq<FileTableCorrectnessError> {
    if ds == [] then [] else
      var (before, dir) := (ds[..|ds| - 1], ds[|ds| - 1]);
      RegisterErrors(before) + RegisterError(before, dir)
  }

  function DirErrors(ds: seq<Directory>): seq<FileTableCorrectnessError> {
    if ds == [] then [] else
      var (before, dir) := (ds[..|ds| - 1], ds[|ds| - 1]);
      DirErrors(before) + DirError(before, dir)
  }

  function FileErrors(ds: seq<Directory>, fs: seq<File>): seq<FileTableCorrectnessError> {
    if fs == [] then [] else
      var (before, file) := (fs[..|fs| - 1], fs[|fs| - 1]);
      FileErrors(ds, before) + FileError(ds, before, file)
  }

  /** Everything that is wrong with a table, in the order in which it is found. */
  function TableErrors(ds: seq<Directory>, fs: seq<File>): seq<FileTableCorrectnessError> {
    RegisterErrors(ds) + DirErrors(ds) + FileErrors(ds, fs)
  }

  /** `error` is about an item that takes what an earlier item already has. */
  ghost predicate Clash(ds: seq<Directory>, fs: seq<File>, error: FileTableCorrectnessError) {
    match error
    case DuplicateDirectoryId(id, name) =>
      exists j :: 0 <= j < |ds| && ds[j].id == id && ds[j].name == name && id in DirIds(ds[..j])
    case DuplicateFileId(id, name) =>
      exists j :: 0 <= j < |fs| && fs[j].id == id && fs[j].name == name && (fs[j].parentDir, id) in FileKeys(fs[..j])
    case DuplicateItemInDirName(DirId(id), name, parent) =>
      exists j :: 0 <= j < |ds| && ds[j].id == id && ds[j].name == name && ds[j].parentDir == parent
               && (parent, name) in DirPlaces(ds[..j])
    case DuplicateItemInDirName(FileId(id), name, parent) =>
      exists j :: 0 <= j < |fs| && fs[j].id == id && fs[j].name == name && fs[j].parentDir == parent
               && (parent, name) in DirPlaces(ds) + FilePlaces(fs[..j])
  }

  /** The reported errors are exactly the clashes. */
  lemma ErrorsAreClashes(ds: seq<Directory>, fs: seq<File>, error: FileTableCorrectnessError)
    ensures error in TableErrors(ds, fs) <==> Clash(ds, fs, error)
  {
    hide DirIds, DirKeys, DirPlaces, FileKeys, FilePlaces, RegisterErrors, DirErrors, FileErrors;
    RegisterErrorAt(ds, error);
    DirErrorAt(ds, error);
    FileErrorAt(ds, fs, error);
    forall j | 0 <= j < |ds| ensures (ds[j].parentDir, ds[j].id) in DirKeys(ds[..j]) ==> ds[j].id in DirIds(ds[..j]) {
      KeyHasId(ds[..j], ds[j].parentDir, ds[j].id);
    }
  }

  lemma KeyHasId(ds: seq<Directory>, ref: DirRef, id: Id)
    ensures (ref, id) in DirKeys(ds) ==> id in DirIds(ds)
  {
    if (ref, id) in DirKeys(ds) {
      var i :| 0 <= i < |ds| && DirKeys(ds)[i] == (ref, id);
      assert DirIds(ds)[i] == id;
    }
  }

  lemma {:induction false} RegisterErrorAt(ds: seq<Directory>, error: FileTableCorrectnessError)
    ensures error in RegisterErrors(ds) <==> exists j :: 0 <= j < |ds| && error in RegisterError(ds[..j], ds[j])
  {
    hide RegisterError;
    if ds != [] {
      var before := ds[..|ds| - 1];
      RegisterErrorAt(before, error);
      assert forall j :: 0 <= j < |before| ==> before[..j] == ds[..j] && before[j] == ds[j];
    }
  }

  lemma {:induction false} DirErrorAt(ds: seq<Directory>, error: FileTableCorrectnessError)
    ensures error in DirErrors(ds) <==> exists j :: 0 <= j < |ds| && error in DirError(ds[..j], ds[j])
  {
    hide DirError;
    if ds != [] {
      var before := ds[..|ds| - 1];
      DirErrorAt(before, error);
      assert forall j :: 0 <= j < |before| ==> before[..j] == ds[..j] && before[j] == ds[j];
    }
  }

  lemma {:induction false} FileErrorAt(ds: seq<Directory>, fs: seq<File>, error: FileTableCorrectnessError)
    ensures error in FileErrors(ds, fs) <==> exists j :: 0 <= j < |fs| && error in FileError(ds, fs[..j], fs[j])
  {
    hide FileError;
    if fs != [] {
      var before := fs[..|fs| - 1];
      FileErrorAt(ds, before, error);
      assert forall j :: 0 <= j < |before| ==> before[..j] == fs[..j] && before[j] == fs[j];
    }
  }

  // -- Grouping by parent ------------------------------------------------------------------------

  /** The items that have a given parent. */
  function ListedUnder(ds: seq<Directory>, fs: seq<File>, ref: DirRef): DirContent {
    DirContent(
      (set d | d in ds && d.parentDir == ref :: d.id),
      (set f | f in fs && f.parentDir == ref :: f.id),
      (set d | d in ds && d.parentDir == ref :: d.name) + (set f | f in fs && f.parentDir == ref :: f.name))
  }

  function ListedRefs(ds: seq<Directory>): set<DirRef> {
    {Root} + set d | d in ds :: NonRoot(d.id)
  }

  function ParentRefs(ds: seq<Directory>, fs: seq<File>): set<DirRef> {
    (set d | d in ds :: d.parentDir) + (set f | f in fs :: f.parentDir)
  }

  /** `content` has an entry for each of `refs` and for each parent, and each entry lists exactly its children. */
  ghost predicate Lists(content: map<DirRef, DirContent>, refs: set<DirRef>, ds: seq<Directory>, fs: seq<File>) {
    && content.Keys == refs + ParentRefs(ds, fs)
    && forall ref :: ref in content ==> content[ref] == ListedUnder(ds, fs, ref)
  }

  // -- One more item -----------------------------------------------------------------------------

  lemma NoRepeatOneMore<T>(s: seq<T>, x: T)
    ensures NoRepeat(s + [x]) <==> NoRepeat(s) && x !in s
  {
    var t := s + [x];
    assert t[|s|] == x;
    assert forall i :: 0 <= i < |s| ==> t[i] == s[i];
  }

  function EntryOf(content: map<DirRef, DirContent>, ref: DirRef): DirContent {
    if ref in content then content[ref] else EMPTY_CONTENT
  }

  lemma ListsDir(content: map<DirRef, DirContent>, refs: set<DirRef>, ds: seq<Directory>, dir: Directory)
    requires Lists(content, refs, ds, [])
    ensures Lists(content[dir.parentDir := AddChild(EntryOf(content, dir.parentDir), DirItem(dir))], refs, ds + [dir], [])
    ensures dir.id in EntryOf(content, dir.parentDir).dirs <==> (dir.parentDir, dir.id) in DirKeys(ds)
    ensures dir.name in EntryOf(content, dir.parentDir).names <==> (dir.parentDir, dir.name) in DirPlaces(ds)
  {
    var content' := content[dir.parentDir := AddChild(EntryOf(content, dir.parentDir), DirItem(dir))];
    NotListed(content, refs, ds, [], dir.parentDir);
    OneMoreDir(ds, dir);
    assert content'.Keys == refs + ParentRefs(ds + [dir], []);
    DirPlaceListed(ds, dir.parentDir, dir.name);
    DirKeyListed(ds, dir.parentDir, dir.id);
  }

  lemma OneMoreDir(ds: seq<Directory>, dir: Directory)
    ensures ParentRefs(ds + [dir], []) == ParentRefs(ds, []) + {dir.parentDir}
    ensures forall ref :: ListedUnder(ds + [dir], [], ref) ==
              if ref == dir.parentDir then AddChild(ListedUnder(ds, [], ref), DirItem(dir)) else ListedUnder(ds, [], ref)
  {
    assert forall d :: d in ds + [dir] <==> d in ds || d == dir;
  }

  lemma OneMoreFile(ds: seq<Directory>, fs: seq<File>, file: File)
    ensures ParentRefs(ds, fs + [file]) == ParentRefs(ds, fs) + {file.parentDir}
    ensures forall ref :: ListedUnder(ds, fs + [file], ref) ==
              if ref == file.parentDir then AddChild(ListedUnder(ds, fs, ref), FileItem(file)) else ListedUnder(ds, fs, ref)
  {
    assert forall f :: f in fs + [file] <==> f in fs || f == file;
  }

  lemma NotListed(content: map<DirRef, DirContent>, refs: set<DirRef>, ds: seq<Directory>, fs: seq<File>, ref: DirRef)
    requires Lists(content, refs, ds, fs)
    ensures EntryOf(content, ref) == ListedUnder(ds, fs, ref)
  {
    if ref !in content {
      assert forall d :: d in ds ==> d.parentDir in ParentRefs(ds, fs);
      assert forall f :: f in fs ==> f.parentDir in ParentRefs(ds, fs);
    }
  }

  lemma DirPlaceListed(ds: seq<Directory>, ref: DirRef, name: Name)
    ensures (exists d :: d in ds && d.parentDir == ref && d.name == name) <==> (ref, name) in DirPlaces(ds)
  {
    if d :| d in ds && d.parentDir == ref && d.name == name {
      var i :| 0 <= i < |ds| && ds[i] == d;
      assert DirPlaces(ds)[i] == (ref, name);
    }
    if (ref, name) in DirPlaces(ds) {
      var i :| 0 <= i < |ds| && DirPlaces(ds)[i] == (ref, name);
      assert ds[i] in ds && ds[i].parentDir == ref && ds[i].name == name;
    }
  }

  lemma DirKeyListed(ds: seq<Directory>, ref: DirRef, id: Id)
    ensures (exists d :: d in ds && d.parentDir == ref && d.id == id) <==> (ref, id) in DirKeys(ds)
  {
    if d :| d in ds && d.parentDir == ref && d.id == id {
      var i :| 0 <= i < |ds| && ds[i] == d;
      assert DirKeys(ds)[i] == (ref, id);
    }
    if (ref, id) in DirKeys(ds) {
      var i :| 0 <= i < |ds| && DirKeys(ds)[i] == (ref, id);
      assert ds[i] in ds && ds[i].parentDir == ref && ds[i].id == id;
    }
  }

  lemma ListsFile(content: map<DirRef, DirContent>, refs: set<DirRef>, ds: seq<Directory>, fs: seq<File>, file: File)
    requires Lists(content, refs, ds, fs)
    ensures Lists(content[file.parentDir := AddChild(EntryOf(content, file.parentDir), FileItem(file))], refs, ds, fs + [file])
    ensures file.id in EntryOf(content, file.parentDir).files <==> (file.parentDir, file.id) in FileKeys(fs)
    ensures file.name in EntryOf(content, file.parentDir).names <==>
            (file.parentDir, file.name) in DirPlaces(ds) + FilePlaces(fs)
  {
    var content' := content[file.parentDir := AddChild(EntryOf(content, file.parentDir), FileItem(file))];
    NotListed(content, refs, ds, fs, file.parentDir);
    OneMoreFile(ds, fs, file);
    assert Lists(content', refs, ds, fs + [file]) by {
      hide ListedUnder, ParentRefs;
      assert content'.Keys == refs + ParentRefs(ds, fs + [file]);
    }
    hide Lists, ParentRefs;
    DirPlaceListed(ds, file.parentDir, file.name);
    FilePlaceListed(fs, file.parentDir, file.name);
    FileKeyListed(fs, file.parentDir, file.id);
  }

  lemma FilePlaceListed(fs: seq<File>, ref: DirRef, name: Name)
    ensures (exists f :: f in fs && f.parentDir == ref && f.name == name) <==> (ref, name) in FilePlaces(fs)
  {
    if f :| f in fs && f.parentDir == ref && f.name == name {
      var i :| 0 <= i < |fs| && fs[i] == f;
      assert FilePlaces(fs)[i] == (ref, name);
    }
    if (ref, name) in FilePlaces(fs) {
      var i :| 0 <= i < |fs| && FilePlaces(fs)[i] == (ref, name);
      assert fs[i] in fs && fs[i].parentDir == ref && fs[i].name == name;
    }
  }

  lemma FileKeyListed(fs: seq<File>, ref: DirRef, id: Id)
    ensures (exists f :: f in fs && f.parentDir == ref && f.id == id) <==> (ref, id) in FileKeys(fs)
  {
    if f :| f in fs && f.parentDir == ref && f.id == id {
      var i :| 0 <= i < |fs| && fs[i] == f;
      assert FileKeys(fs)[i] == (ref, id);
    }
    if (ref, id) in FileKeys(fs) {
      var i :| 0 <= i < |fs| && FileKeys(fs)[i] == (ref, id);
      assert fs[i] in fs && fs[i].parentDir == ref && fs[i].id == id;
    }
  }

  // -- No errors ---------------------------------------------------------------------------------

  /** Nothing is reported exactly when the table is healthy. */
  lemma NoErrorsIffHealthy(ds: seq<Directory>, fs: seq<File>)
    ensures TableErrors(ds, fs) == [] <==> Healthy(ds, fs)
  {
    hide NoRepeat, DirIds, DirPlaces, FileKeys, FilePlaces, RegisterErrors, DirErrors, FileErrors;
    NoRegisterErrors(ds);
    NoFileErrors(ds, fs);
    if NoRepeat(DirIds(ds)) {
      NoDirErrors(ds);
    }
  }

  lemma {:induction false} NoRegisterErrors(ds: seq<Directory>)
    ensures RegisterErrors(ds) == [] <==> NoRepeat(DirIds(ds))
  {
    if ds != [] {
      var before, dir := ds[..|ds| - 1], ds[|ds| - 1];
      assert DirIds(ds) == DirIds(before) + [dir.id];
      hide NoRepeat, DirIds;
      NoRegisterErrors(before);
      NoRepeatOneMore(DirIds(before), dir.id);
    }
  }

  lemma {:induction false} NoDirErrors(ds: seq<Directory>)
    requires NoRepeat(DirIds(ds))
    ensures DirErrors(ds) == [] <==> NoRepeat(DirPlaces(ds))
  {
    if ds != [] {
      var before, dir := ds[..|ds| - 1], ds[|ds| - 1];
      assert DirIds(ds) == DirIds(before) + [dir.id];
      assert DirPlaces(ds) == DirPlaces(before) + [(dir.parentDir, dir.name)];
      hide NoRepeat, DirIds, DirKeys, DirPlaces;
      NoRepeatOneMore(DirIds(before), dir.id);
      NoRepeatOneMore(DirPlaces(before), (dir.parentDir, dir.name));
      NoDirErrors(before);
      KeyHasId(before, dir.parentDir, dir.id);
    }
  }

  lemma {:induction false} NoFileErrors(ds: seq<Directory>, fs: seq<File>)
    ensures Healthy(ds, fs) <==> NoRepeat(DirIds(ds)) && NoRepeat(DirPlaces(ds)) && FileErrors(ds, fs) == []
  {
    if fs == [] {
      assert DirPlaces(ds) + FilePlaces(fs) == DirPlaces(ds);
    } else {
      var before, file := fs[..|fs| - 1], fs[|fs| - 1];
      assert FileKeys(fs) == FileKeys(before) + [(file.parentDir, file.id)];
      assert FilePlaces(fs) == FilePlaces(before) + [(file.parentDir, file.name)];
      hide NoRepeat, DirIds, FileKeys, DirPlaces, FilePlaces;
      assert DirPlaces(ds) + FilePlaces(fs) == (DirPlaces(ds) + FilePlaces(before)) + [(file.parentDir, file.name)];
      NoRepeatOneMore(FileKeys(before), (file.parentDir, file.id));
      NoRepeatOneMore(DirPlaces(ds) + FilePlaces(before), (file.parentDir, file.name));
      NoFileErrors(ds, before);
    }
  }

  // -- The check ---------------------------------------------------------------------------------

  /** Accepts exactly the healthy tables, and returns the items grouped by parent, or everything that is wrong. */
  method CheckFileTableCorrectness(segs: Segs)
    returns (r: Result<map<DirRef, DirContent>, seq<FileTableCorrectnessError>>)
    ensures r.Ok? <==> Healthy(FilledDirs(segs), FilledFiles(segs))
    ensures r.Ok? ==> Lists(r.value, ListedRefs(FilledDirs(segs)), FilledDirs(segs), FilledFiles(segs))
    ensures r.Err? ==> r.error == TableErrors(FilledDirs(segs), FilledFiles(segs))
  {
    hide Lists, Healthy, ListedRefs, RegisterErrors, DirErrors, FileErrors, FilledDirs, FilledFiles;
    var ds, fs := FilledDirs(segs), FilledFiles(segs);
    var content, errors := RegisterDirs(ds);
    content, errors := ListDirs(ds, content, errors);
    content, errors := ListFiles(ds, fs, content, errors);
    NoErrorsIffHealthy(ds, fs);
    r := if errors == [] then Ok(content) else Err(errors);
  }

  /** An empty entry for the root and for each directory. */
  method RegisterDirs(ds: seq<Directory>)
    returns (content: map<DirRef, DirContent>, errors: seq<FileTableCorrectnessError>)
    ensures Lists(content, ListedRefs(ds), [], [])
    ensures errors == RegisterErrors(ds)
  {
    hide DirIds, ListedRefs;
    errors := [];
    content := map[Root := EMPTY_CONTENT];
    NoDirs();
    assert ds[..0] == [];
    for i := 0 to |ds|
      invariant content.Keys == ListedRefs(ds[..i]) && forall ref :: ref in content ==> content[ref] == EMPTY_CONTENT
      invariant errors == RegisterErrors(ds[..i])
    {
      var dir := ds[i];
      NextDirRef(ds, i);
      if NonRoot(dir.id) in content {
        errors := errors + [DuplicateDirectoryId(dir.id, dir.name)];
      }
      content := content[NonRoot(dir.id) := EMPTY_CONTENT];
    }
    assert ds[..|ds|] == ds;
    assert ParentRefs([], []) == {};
    assert forall ref :: ListedUnder([], [], ref) == EMPTY_CONTENT;
  }

  lemma NoDirs()
    ensures ListedRefs([]) == {Root}
  {
  }

  lemma NextDirRef(ds: seq<Directory>, i: nat)
    requires i < |ds|
    ensures ds[..i + 1] == ds[..i] + [ds[i]]
    ensures ListedRefs(ds[..i + 1]) == ListedRefs(ds[..i]) + {NonRoot(ds[i].id)}
    ensures ds[i].id in DirIds(ds[..i]) <==> NonRoot(ds[i].id) in ListedRefs(ds[..i])
  {
    assert ds[..i + 1] == ds[..i] + [ds[i]];
    DirIdPresent(ds[..i], ds[i].id);
  }

  lemma DirIdPresent(ds: seq<Directory>, id: Id)
    ensures id in DirIds(ds) <==> NonRoot(id) in ListedRefs(ds)
  {
    if id in DirIds(ds) {
      var i :| 0 <= i < |ds| && DirIds(ds)[i] == id;
      assert ds[i] in ds;
    }
    if NonRoot(id) in ListedRefs(ds) {
      var d :| d in ds && d.id == id;
      var i :| 0 <= i < |ds| && ds[i] == d;
      assert DirIds(ds)[i] == id;
    }
  }

  method ListDirs(ds: seq<Directory>, registered: map<DirRef, DirContent>, found: seq<FileTableCorrectnessError>)
    returns (content: map<DirRef, DirContent>, errors: seq<FileTableCorrectnessError>)
    requires Lists(registered, ListedRefs(ds), [], [])
    ensures Lists(content, ListedRefs(ds), ds, [])
    ensures errors == found + DirErrors(ds)
  {
    hide Lists, DirKeys, DirPlaces, ListedRefs, DirErrors;
    content, errors := registered, found;
    ghost var refs := ListedRefs(ds);
    NothingFound(ds);
    assert ds[..0] == [];
    for i := 0 to |ds|
      invariant Lists(content, refs, ds[..i], [])
      invariant errors == found + DirErrors(ds[..i])
    {
      var dir := ds[i];
      NextDirError(ds, i);
      ListsDir(content, refs, ds[..i], dir);
      var parent := if dir.parentDir in content then content[dir.parentDir] else EMPTY_CONTENT;
      if dir.id in parent.dirs {
        errors := errors + [DuplicateDirectoryId(dir.id, dir.name)];
      }
      parent := parent.(dirs := parent.dirs + {dir.id});
      if dir.name in parent.names {
        errors := errors + [DuplicateItemInDirName(DirId(dir.id), dir.name, dir.parentDir)];
      }
      parent := parent.(names := parent.names + {dir.name});
      content := content[dir.parentDir := parent];
    }
    assert ds[..|ds|] == ds;
  }

  lemma NothingFound(ds: seq<Directory>)
    ensures DirErrors([]) == [] && FileErrors(ds, []) == []
  {
  }

  lemma NextDirError(ds: seq<Directory>, i: nat)
    requires i < |ds|
    ensures ds[..i + 1] == ds[..i] + [ds[i]]
    ensures DirErrors(ds[..i + 1]) == DirErrors(ds[..i]) + DirError(ds[..i], ds[i])
  {
    hide DirError;
    assert ds[..i + 1] == ds[..i] + [ds[i]];
  }

  method ListFiles(ds: seq<Directory>, fs: seq<File>, listed: map<DirRef, DirContent>,
                   found: seq<FileTableCorrectnessError>)
    returns (content: map<DirRef, DirContent>, errors: seq<FileTableCorrectnessError>)
    requires Lists(listed, ListedRefs(ds), ds, [])
    ensures Lists(content, ListedRefs(ds), ds, fs)
    ensures errors == found + FileErrors(ds, fs)
  {
    hide Lists, DirPlaces, FilePlaces, FileKeys, ListedRefs, FileErrors;
    content, errors := listed, found;
    ghost var refs := ListedRefs(ds);
    NothingFound(ds);
    assert fs[..0] == [];
    for i := 0 to |fs|
      invariant Lists(content, refs, ds, fs[..i])
      invariant errors == found + FileErrors(ds, fs[..i])
    {
      var file := fs[i];
      NextFileError(ds, fs, i);
      ListsFile(content, refs, ds, fs[..i], file);
      var parent := if file.parentDir in content then content[file.parentDir] else EMPTY_CONTENT;
      if file.id in parent.files {
        errors := errors + [DuplicateFileId(file.id, file.name)];
      }
      parent := parent.(files := parent.files + {file.id});
      if file.name in parent.names {
        errors := errors + [DuplicateItemInDirName(FileId(file.id), file.name, file.parentDir)];
      }
      parent := parent.(names := parent.names + {file.name});
      content := content[file.parentDir := parent];
    }
    assert fs[..|fs|] == fs;
  }

  lemma NextFileError(ds: seq<Directory>, fs: seq<File>, i: nat)
    requires i < |fs|
    ensures fs[..i + 1] == fs[..i] + [fs[i]]
    ensures FileErrors(ds, fs[..i + 1]) == FileErrors(ds, fs[..i]) + FileError(ds, fs[..i], fs[i])
  {
    hide FileError;
    assert fs[..i + 1] == fs[..i] + [fs[i]];
  }
}
