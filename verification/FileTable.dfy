/** The file table in memory: slots spread over the segments, and the items that fill them. */
module FileTable {
  import opened Wrappers
  import opened Bytes
  import opened Names
  import opened Entries
  import opened Segments
  import opened Headers

  type Segs = seq<FileTableSegment>
  type Dirs = map<Id, Directory>
  type Files = map<Id, File>

  datatype ItemId = DirId(n: Id) | FileId(n: Id)

  datatype Item = DirItem(dir: Directory) | FileItem(file: File) {
    function Id(): ItemId {
      match this
      case DirItem(dir) => DirId(dir.id)
      case FileItem(file) => FileId(file.id)
    }

    function Parent(): DirRef {
      match this
      case DirItem(dir) => dir.parentDir
      case FileItem(file) => file.parentDir
    }

    function Name(): Name {
      match this
      case DirItem(dir) => dir.name
      case FileItem(file) => file.name
    }
  }

  function Lookup(dirs: Dirs, files: Files, k: ItemId): Option<Item> {
    match k
    case DirId(id) => if id in dirs then Some(DirItem(dirs[id])) else None
    case FileId(id) => if id in files then Some(FileItem(files[id])) else None
  }

  function DirItems(dirs: Dirs, ids: seq<Id>): seq<Item>
    requires forall id :: id in ids ==> id in dirs
  {
    seq(|ids|, i requires 0 <= i < |ids| => DirItem(dirs[ids[i]]))
  }

  function FileItems(files: Files, ids: seq<Id>): seq<Item>
    requires forall id :: id in ids ==> id in files
  {
    seq(|ids|, i requires 0 <= i < |ids| => FileItem(files[ids[i]]))
  }

  // -- Slots -------------------------------------------------------------------------------------

  datatype Slot = DirSlot(seg: nat, idx: nat) | FileSlot(seg: nat, idx: nat)

  predicate ValidSlot(segs: Segs, s: Slot) {
    s.seg < |segs| && s.idx < if s.DirSlot? then |segs[s.seg].dirs| else |segs[s.seg].files|
  }

  function ItemAt(segs: Segs, s: Slot): Option<Item> {
    if !ValidSlot(segs, s) then None
    else
      match s
      case DirSlot(i, j) => if segs[i].dirs[j].Some? then Some(DirItem(segs[i].dirs[j].value)) else None
      case FileSlot(i, j) => if segs[i].files[j].Some? then Some(FileItem(segs[i].files[j].value)) else None
  }

  /** Directory slots hold directories, file slots hold files. */
  predicate Fits(s: Slot, v: Option<Item>) {
    v.Some? ==> (s.DirSlot? <==> v.value.DirItem?)
  }

  function SetSlot(segs: Segs, s: Slot, v: Option<Item>): Segs
    requires ValidSlot(segs, s) && Fits(s, v)
  {
    match s
    case DirSlot(i, j) =>
      var slot := if v.Some? then Some(v.value.dir) else None;
      segs[i := segs[i].(dirs := segs[i].dirs[j := slot])]
    case FileSlot(i, j) =>
      var slot := if v.Some? then Some(v.value.file) else None;
      segs[i := segs[i].(files := segs[i].files[j := slot])]
  }

  lemma SetSlotItems(segs: Segs, s: Slot, v: Option<Item>)
    requires ValidSlot(segs, s) && Fits(s, v)
    ensures forall t :: ItemAt(SetSlot(segs, s, v), t) == if t == s then v else ItemAt(segs, t)
  {
    hide Fits;
    assert Fits(s, v);
    forall t
      ensures ItemAt(SetSlot(segs, s, v), t) == if t == s then v else ItemAt(segs, t)
    {
      SetSlotItem(segs, s, v, t);
    }
  }

  lemma SetSlotItem(segs: Segs, s: Slot, v: Option<Item>, t: Slot)
    requires ValidSlot(segs, s) && Fits(s, v)
    ensures ItemAt(SetSlot(segs, s, v), t) == if t == s then v else ItemAt(segs, t)
  {
  }

  // -- Addresses ---------------------------------------------------------------------------------

  function SegmentAddr(segs: Segs, i: nat): nat {
    if i == 0 || i > |segs| then HEADER_SIZE else segs[i - 1].nextSegmentAddr.GetOr(0)
  }

  function EntryAddr(segs: Segs, s: Slot): nat
    requires ValidSlot(segs, s)
  {
    SegmentAddr(segs, s.seg) +
    match s
    case DirSlot(i, j) => DirEntryOffset(segs[i], j).value
    case FileSlot(i, j) => FileEntryOffset(segs[i], j).value
  }

  function SlotBytes(s: Slot, v: Option<Item>): (bytes: seq<Byte>)
    requires Fits(s, v)
    ensures |bytes| == if s.DirSlot? then DIRECTORY_ENTRY_SIZE else FILE_ENTRY_SIZE
  {
    match s
    case DirSlot(_, _) => DirSlotBytes(if v.Some? then Some(v.value.dir) else None)
    case FileSlot(_, _) => FileSlotBytes(if v.Some? then Some(v.value.file) else None)
  }

  /** All segments but the last point to a next one, and no pointer is the null address. */
  ghost predicate TableShape(segs: Segs) {
    && |segs| > 0
    && forall i :: 0 <= i < |segs| ==>
         && (segs[i].nextSegmentAddr.None? <==> i == |segs| - 1)
         && segs[i].nextSegmentAddr != Some(0)
  }

  // -- Slots and maps ----------------------------------------------------------------------------

  /** The maps hold exactly the items of the filled slots, and no two slots share an identifier. */
  ghost predicate SlotsMatch(segs: Segs, dirs: Dirs, files: Files) {
    && (forall s :: ItemAt(segs, s).Some? ==> Lookup(dirs, files, ItemAt(segs, s).value.Id()) == ItemAt(segs, s))
    && (forall k :: Lookup(dirs, files, k).Some? ==> Stored(segs, Lookup(dirs, files, k).value, k))
    && (forall s, t :: SameIdentifier(segs, s, t) ==> s == t)
  }

  ghost predicate Stored(segs: Segs, item: Item, k: ItemId) {
    item.Id() == k && exists s :: ItemAt(segs, s) == Some(item)
  }

  ghost predicate SameIdentifier(segs: Segs, s: Slot, t: Slot) {
    ItemAt(segs, s).Some? && ItemAt(segs, t).Some? && ItemAt(segs, s).value.Id() == ItemAt(segs, t).value.Id()
  }

  /** The primed maps are the others with the item `k` set to `v`, or removed. */
  ghost predicate Changed(dirs: Dirs, files: Files, dirs': Dirs, files': Files, k: ItemId, v: Option<Item>) {
    && (forall j :: Lookup(dirs', files', j) == if j == k then v else Lookup(dirs, files, j))
    && (v.Some? ==> v.value.Id() == k)
  }

  /** The maps follow when one slot and the entry of its item change together. */
  lemma SlotChange(segs: Segs, dirs: Dirs, files: Files, dirs': Dirs, files': Files,
                   s: Slot, k: ItemId, v: Option<Item>)
    requires SlotsMatch(segs, dirs, files) && ValidSlot(segs, s) && Fits(s, v)
    requires ItemAt(segs, s) == Lookup(dirs, files, k)
    requires Changed(dirs, files, dirs', files', k, v)
    ensures SlotsMatch(SetSlot(segs, s, v), dirs', files')
  {
    var segs' := SetSlot(segs, s, v);
    SetSlotItems(segs, s, v);
    hide SetSlot, ItemAt, Lookup;
    forall t | ItemAt(segs', t).Some?
      ensures Lookup(dirs', files', ItemAt(segs', t).value.Id()) == ItemAt(segs', t)
    {
      assert t != s ==> !SameIdentifier(segs, s, t);
    }
    forall j | Lookup(dirs', files', j).Some?
      ensures Stored(segs', Lookup(dirs', files', j).value, j)
    {
      if j == k {
        assert ItemAt(segs', s) == v;
      } else {
        assert Stored(segs, Lookup(dirs, files, j).value, j);
        var t :| ItemAt(segs, t) == Lookup(dirs, files, j);
        assert t != s;
        assert ItemAt(segs', t) == ItemAt(segs, t);
      }
    }
    forall t, u | SameIdentifier(segs', t, u)
      ensures t == u
    {
      if t != s && u != s {
        assert SameIdentifier(segs, t, u);
      } else {
        var w := if t == s then u else t;
        assert w != s ==> !SameIdentifier(segs, s, w);
      }
    }
  }

  // -- Directory contents ------------------------------------------------------------------------

  datatype DirContent = DirContent(dirs: set<Id>, files: set<Id>, names: set<Name>)

  const EMPTY_CONTENT := DirContent({}, {}, {})

  function Refs(dirs: Dirs): set<DirRef> {
    {Root} + set id | id in dirs :: NonRoot(id)
  }

  function NamesIn(dirs: Dirs, files: Files, ref: DirRef): set<Name> {
    (set id | id in dirs && dirs[id].parentDir == ref :: dirs[id].name)
    + (set id | id in files && files[id].parentDir == ref :: files[id].name)
  }

  function DirsIn(dirs: Dirs, ref: DirRef): set<Id> {
    set id | id in dirs && dirs[id].parentDir == ref
  }

  function FilesIn(files: Files, ref: DirRef): set<Id> {
    set id | id in files && files[id].parentDir == ref
  }

  function ChildrenOf(dirs: Dirs, files: Files, ref: DirRef): DirContent {
    DirContent(DirsIn(dirs, ref), FilesIn(files, ref), NamesIn(dirs, files, ref))
  }

  /** The items grouped by parent, with an entry for the root and for each directory. */
  function Group(dirs: Dirs, files: Files): map<DirRef, DirContent> {
    map ref | ref in Refs(dirs) :: ChildrenOf(dirs, files, ref)
  }

  lemma NothingListed(dirs: Dirs, files: Files, ref: DirRef)
    requires forall id :: id in dirs ==> dirs[id].parentDir != ref
    requires forall id :: id in files ==> files[id].parentDir != ref
    ensures ChildrenOf(dirs, files, ref) == EMPTY_CONTENT
  {
    assert DirsIn(dirs, ref) == {};
    assert FilesIn(files, ref) == {};
    assert NamesIn(dirs, files, ref) == {};
  }

  lemma GroupEntries(dirs: Dirs, files: Files)
    ensures Group(dirs, files).Keys == Refs(dirs)
    ensures forall ref :: ref in Refs(dirs) ==> Group(dirs, files)[ref] == ChildrenOf(dirs, files, ref)
  {
    hide Refs, ChildrenOf;
  }

  lemma GroupIs(dirs: Dirs, files: Files, content: map<DirRef, DirContent>)
    requires content.Keys == Refs(dirs)
    requires forall ref :: ref in Refs(dirs) ==> content[ref] == ChildrenOf(dirs, files, ref)
    ensures content == Group(dirs, files)
  {
    hide Refs, ChildrenOf;
  }

  function AddChild(content: DirContent, item: Item): DirContent {
    match item
    case DirItem(dir) => content.(dirs := content.dirs + {dir.id}, names := content.names + {dir.name})
    case FileItem(file) => content.(files := content.files + {file.id}, names := content.names + {file.name})
  }

  function RemoveChild(content: DirContent, item: Item): DirContent {
    match item
    case DirItem(dir) => content.(dirs := content.dirs - {dir.id}, names := content.names - {dir.name})
    case FileItem(file) => content.(files := content.files - {file.id}, names := content.names - {file.name})
  }

  /** Two items, possibly one of each kind, in the same directory and of the same name. */
  ghost predicate SameName(dirs: Dirs, files: Files, j: ItemId, k: ItemId) {
    && Lookup(dirs, files, j).Some? && Lookup(dirs, files, k).Some?
    && Lookup(dirs, files, j).value.Parent() == Lookup(dirs, files, k).value.Parent()
    && Lookup(dirs, files, j).value.Name() == Lookup(dirs, files, k).value.Name()
  }

  /** An item is found under its own identifier, in a directory that exists and that is older. */
  ghost predicate WellPlaced(dirs: Dirs, item: Item, k: ItemId, nextId: nat) {
    && item.Id() == k
    && k.n < nextId
    && item.Parent() in Refs(dirs)
    && (item.Parent().NonRoot? ==> item.Parent().id < k.n)
  }

  ghost predicate TreeOk(dirs: Dirs, files: Files, nextId: nat) {
    && (forall k :: Lookup(dirs, files, k).Some? ==> WellPlaced(dirs, Lookup(dirs, files, k).value, k, nextId))
    && (forall j, k :: SameName(dirs, files, j, k) ==> j == k)
    && (forall id :: id in dirs ==> id !in files)
  }

  lemma NameInGroup(dirs: Dirs, files: Files, ref: DirRef, name: Name)
    ensures name in NamesIn(dirs, files, ref) <==>
            exists k :: && Lookup(dirs, files, k).Some?
                        && Lookup(dirs, files, k).value.Parent() == ref
                        && Lookup(dirs, files, k).value.Name() == name
  {
    if name in NamesIn(dirs, files, ref) {
      if id :| id in dirs && dirs[id].parentDir == ref && dirs[id].name == name {
        assert Lookup(dirs, files, DirId(id)).Some?;
      } else {
        var id :| id in files && files[id].parentDir == ref && files[id].name == name;
        assert Lookup(dirs, files, FileId(id)).Some?;
      }
    }
    if k :| Lookup(dirs, files, k).Some?
            && Lookup(dirs, files, k).value.Parent() == ref && Lookup(dirs, files, k).value.Name() == name {
      match k
      case DirId(id) => assert id in dirs && dirs[id].name == name;
      case FileId(id) => assert id in files && files[id].name == name;
    }
  }
}
