/** The state of an archive, its invariant, and why each in-place change keeps the invariant. */
module States {
  import opened Wrappers
  import opened Bytes
  import opened Entries
  import opened Segments
  import opened Headers
  import opened Coverages
  import opened FileTable
  import opened Layouts

  /** A digest of a whole message; which one it is does not matter. */
  type Hash = seq<Byte> -> Digest

  datatype State = State(
    disk: seq<Byte>,
    segs: Segs,
    dirs: Dirs,
    files: Files,
    content: map<DirRef, DirContent>,
    used: seq<Extent>,
    len: nat,
    nextId: nat)

  /** Each file carries the digest of the bytes that are stored for it. */
  ghost predicate DigestsMatch(disk: seq<Byte>, files: Files, sha3: Hash) {
    forall id :: id in files ==> files[id].checksum == sha3(Blob(disk, files[id]))
  }

  /** The bytes of every file. */
  ghost function Contents(disk: seq<Byte>, files: Files): map<Id, seq<Byte>> {
    map id | id in files :: Blob(disk, files[id])
  }

  /** The disk image, the mirror in memory and the allocator agree. */
  ghost predicate Inv(st: State, sha3: Hash) {
    && TableShape(st.segs)
    && OnDisk(st.disk, st.segs)
    && SlotsMatch(st.segs, st.dirs, st.files)
    && TreeOk(st.dirs, st.files, st.nextId)
    && st.content == Group(st.dirs, st.files)
    && Layout(|st.disk|, st.segs, st.files)
    && Tracks(st.used, st.segs, st.files)
    && st.len == |st.disk| < U64_LIMIT
    && DigestsMatch(st.disk, st.files, sha3)
  }

  /** The allocator of a valid archive is ready to be searched, and knows the header. */
  lemma AllocatorReady(st: State, sha3: Hash)
    requires Inv(st, sha3)
    ensures Ready(st.used, 0) && Within(st.used, st.len) && st.len == |st.disk|
    ensures |st.disk| >= HEADER_SIZE
    ensures forall e: Extent :: e.len > 0 && DisjointFromAll(e, st.used) ==> e.start >= HEADER_SIZE
  {
    TrackedWithin(|st.disk|, st.used, st.segs, st.files);
    assert ExtentOf(st.segs, st.files, HeaderOwner) == Extent(0, HEADER_SIZE);
    assert Owned(st.segs, st.files, Extent(0, HEADER_SIZE));
    var i :| 0 <= i < |st.used| && st.used[i] == Extent(0, HEADER_SIZE);
    forall e: Extent | e.len > 0 && DisjointFromAll(e, st.used)
      ensures e.start >= HEADER_SIZE
    {
      assert Disjoint(e, st.used[i]);
    }
  }

  lemma TrackedWithin(size: nat, used: seq<Extent>, segs: Segs, files: Files)
    requires Layout(size, segs, files) && Tracks(used, segs, files)
    ensures Within(used, size)
  {
    forall i | 0 <= i < |used|
      ensures used[i].End() <= size
    {
      assert used[i] in used;
      assert Owned(segs, files, used[i]);
    }
  }

  // -- A change of one slot that moves no blob ---------------------------------------------------

  /** The files are the same, up to their names and times. */
  ghost predicate SameBlobs(files: Files, files': Files) {
    && files'.Keys == files.Keys
    && forall id :: id in files ==>
         BlobExtent(files'[id]) == BlobExtent(files[id]) && files'[id].checksum == files[id].checksum
  }

  lemma SlotStep(st: State, st': State, sha3: Hash, s: Slot, k: ItemId, v: Option<Item>)
    requires Inv(st, sha3)
    requires ValidSlot(st.segs, s) && Fits(s, v) && ItemAt(st.segs, s) == Lookup(st.dirs, st.files, k)
    requires Changed(st.dirs, st.files, st'.dirs, st'.files, k, v) && SameBlobs(st.files, st'.files)
    requires TreeOk(st'.dirs, st'.files, st'.nextId) && st'.content == Group(st'.dirs, st'.files)
    requires st'.disk == Write(st.disk, EntryAddr(st.segs, s), SlotBytes(s, v))
    requires st'.segs == SetSlot(st.segs, s, v) && st'.used == st.used && st'.len == st.len
    ensures Inv(st', sha3)
    ensures Contents(st'.disk, st'.files) == Contents(st.disk, st.files)
    ensures |st'.disk| == |st.disk|
  {
    SlotWritten(st.disk, st.segs, st.files, s, v);
    SetSlotLayout(st.segs, st.files, s, v);
    SlotChange(st.segs, st.dirs, st.files, st'.dirs, st'.files, s, k, v);
    hide OnDisk, SlotsMatch, TreeOk, Group, Layout, Tracks, SetSlot, SlotBytes, EntryAddr, Write, Changed, Lookup, TableShape;
    SameBlobExtents(st'.segs, st.files, st'.files);
    SameExtents(|st.disk|, st.segs, st.files, st'.segs, st'.files, st.used);
    KeptContents(st.disk, st'.disk, st.segs, st.files, st'.files, SegmentOwner(s.seg), sha3);
  }

  lemma SameBlobExtents(segs: Segs, files: Files, files': Files)
    requires SameBlobs(files, files')
    ensures forall o :: ExtentOf(segs, files', o) == ExtentOf(segs, files, o)
  {
    hide SegmentAddr, EncodedLen;
  }

  lemma KeptContents(disk: seq<Byte>, disk': seq<Byte>, segs: Segs, files: Files, files': Files, except: Owner, sha3: Hash)
    requires Kept(disk, disk', segs, files, Some(except)) && !except.BlobOwner? && SameBlobs(files, files')
    ensures Contents(disk', files') == Contents(disk, files)
    ensures DigestsMatch(disk, files, sha3) ==> DigestsMatch(disk', files', sha3)
  {
    forall id | id in files
      ensures Blob(disk', files'[id]) == Blob(disk, files[id])
    {
      KeptBlob(disk, disk', segs, files, Some(except), id);
    }
    hide Blob, Kept;
  }

  // -- Storing a file ----------------------------------------------------------------------------

  /** What a file is stored as: its content in a zone that nobody else touches, and its entry in a slot. */
  ghost predicate StoredFile(file: File, addr: nat, bytes: seq<Byte>, sha3: Hash) {
    && file.contentAddr == addr && file.contentLen == |bytes| && file.checksum == sha3(bytes)
  }

  /** Allocating a zone for the content of a file, writing it, then writing the entry of the file. */
  lemma FileStep(st: State, st': State, sha3: Hash, s: Slot, file: File, bytes: seq<Byte>)
    requires Inv(st, sha3)
    requires s.FileSlot? && ValidSlot(st.segs, s)
    requires ItemAt(st.segs, s) == Lookup(st.dirs, st.files, FileId(file.id))
    requires StoredFile(file, file.contentAddr, bytes, sha3)
    requires file.contentAddr <= |st.disk| && |Write(st.disk, file.contentAddr, bytes)| < U64_LIMIT
    requires DisjointFromAll(BlobExtent(file), FreedFor(st, file.id))
    requires st'.dirs == st.dirs && st'.files == st.files[file.id := file]
    requires TreeOk(st'.dirs, st'.files, st'.nextId) && st'.content == Group(st'.dirs, st'.files)
    requires st'.disk == Write(Write(st.disk, file.contentAddr, bytes), EntryAddr(st.segs, s), EncodeFile(file))
    requires st'.segs == SetSlot(st.segs, s, Some(FileItem(file)))
    requires st'.used == Marked(FreedFor(st, file.id), BlobExtent(file))
    requires st'.len == |Write(st.disk, file.contentAddr, bytes)|
    ensures Inv(st', sha3)
    ensures Contents(st'.disk, st'.files) == Contents(st.disk, st.files)[file.id := bytes]
    ensures |st'.disk| == |Write(st.disk, file.contentAddr, bytes)|
  {
    InvParts(st, sha3);
    WithoutFile(st, sha3, file.id);
    SlotBytesOfFile(s, file);
    FileChanged(st.dirs, st.files, file);
    hide *;
    var rest, item := st.files - {file.id}, FileItem(file);
    var disk1 := Write(st.disk, file.contentAddr, bytes);
    var freed := FreedFor(st, file.id);
    FreeForAll(freed, st.segs, rest, BlobExtent(file));
    BlobWritten(st, sha3, rest, file, bytes);
    SlotWritten(disk1, st.segs, rest, s, Some(item));
    SlotChange(st.segs, st.dirs, st.files, st'.dirs, st'.files, s, FileId(file.id), Some(item));
    BlobAdded(|st'.disk|, freed, st.segs, rest, file);
    SetSlotFrames(|st'.disk|, st'.used, st.segs, st'.files, s, Some(item));
    StoredContents(st, st'.disk, sha3, rest, file, bytes, disk1, s);
    InvOf(st', sha3);
  }

  lemma FileChanged(dirs: Dirs, files: Files, file: File)
    ensures Changed(dirs, files, dirs, files[file.id := file], FileId(file.id), Some(FileItem(file)))
    ensures file.id !in files - {file.id}
    ensures (files - {file.id})[file.id := file] == files[file.id := file]
  {
  }

  lemma FileGone(dirs: Dirs, files: Files, id: Id)
    ensures Changed(dirs, files, dirs, files - {id}, FileId(id), None)
  {
  }

  /** The allocator once the zone of the file, if it has one, is given up. */
  function FreedFor(st: State, id: Id): seq<Extent> {
    if id in st.files then Unmarked(st.used, BlobExtent(st.files[id])) else st.used
  }

  lemma WithoutFile(st: State, sha3: Hash, id: Id)
    requires Inv(st, sha3)
    ensures Layout(|st.disk|, st.segs, st.files - {id}) && Tracks(FreedFor(st, id), st.segs, st.files - {id})
  {
    hide Layout, Tracks, Unmarked, OnDisk, SlotsMatch, TreeOk, Group, DigestsMatch;
    if id in st.files {
      BlobFreed(|st.disk|, st.used, st.segs, st.files, id);
    } else {
      assert st.files - {id} == st.files;
    }
  }

  lemma SlotBytesOfFile(s: Slot, file: File)
    requires s.FileSlot?
    ensures Fits(s, Some(FileItem(file))) && SlotBytes(s, Some(FileItem(file))) == EncodeFile(file)
  {
  }

  lemma InvParts(st: State, sha3: Hash)
    requires Inv(st, sha3)
    ensures TableShape(st.segs) && OnDisk(st.disk, st.segs) && SlotsMatch(st.segs, st.dirs, st.files)
    ensures TreeOk(st.dirs, st.files, st.nextId) && st.content == Group(st.dirs, st.files)
    ensures Layout(|st.disk|, st.segs, st.files) && Tracks(st.used, st.segs, st.files)
    ensures st.len == |st.disk| < U64_LIMIT && DigestsMatch(st.disk, st.files, sha3)
  {
  }

  lemma InvOf(st: State, sha3: Hash)
    requires TableShape(st.segs) && OnDisk(st.disk, st.segs) && SlotsMatch(st.segs, st.dirs, st.files)
    requires TreeOk(st.dirs, st.files, st.nextId) && st.content == Group(st.dirs, st.files)
    requires Layout(|st.disk|, st.segs, st.files) && Tracks(st.used, st.segs, st.files)
    requires st.len == |st.disk| < U64_LIMIT && DigestsMatch(st.disk, st.files, sha3)
    ensures Inv(st, sha3)
  {
  }

  lemma BlobWritten(st: State, sha3: Hash, rest: Files, file: File, bytes: seq<Byte>)
    requires Inv(st, sha3) && Layout(|st.disk|, st.segs, rest)
    requires file.contentAddr <= |st.disk| && file.contentLen == |bytes|
    requires Untouched(st.segs, rest, BlobExtent(file), None)
    ensures var disk' := Write(st.disk, file.contentAddr, bytes);
            && |st.disk| <= |disk'| && BlobExtent(file).End() <= |disk'|
            && OnDisk(disk', st.segs) && Layout(|disk'|, st.segs, rest)
            && Kept(st.disk, disk', st.segs, rest, None)
            && Blob(disk', file) == bytes
  {
    InvParts(st, sha3);
    hide Inv, OnDisk, EncodeFile, TreeOk, SlotsMatch, Group, ExtentOf;
    WriteSize(st.disk, file.contentAddr, bytes);
    WriteStores(st.disk, file.contentAddr, bytes);
    WriteKeeps(st.disk, file.contentAddr, bytes, st.segs, rest, None);
    KeptOnDisk(st.disk, Write(st.disk, file.contentAddr, bytes), st.segs, rest);
  }

  lemma StoredContents(st: State, disk': seq<Byte>, sha3: Hash, rest: Files, file: File, bytes: seq<Byte>,
                       disk1: seq<Byte>, s: Slot)
    requires DigestsMatch(st.disk, st.files, sha3) && rest == st.files - {file.id}
    requires StoredFile(file, file.contentAddr, bytes, sha3)
    requires Layout(|disk1|, st.segs, rest) && BlobExtent(file).End() <= |disk1|
    requires ValidSlot(st.segs, s) && Fits(s, Some(FileItem(file)))
    requires disk' == Write(disk1, EntryAddr(st.segs, s), SlotBytes(s, Some(FileItem(file))))
    requires Kept(st.disk, disk1, st.segs, rest, None) && Kept(disk1, disk', st.segs, rest, Some(SegmentOwner(s.seg)))
    requires Untouched(st.segs, rest, BlobExtent(file), None)
    requires Blob(disk1, file) == bytes
    ensures var files' := st.files[file.id := file];
            && Contents(disk', files') == Contents(st.disk, st.files)[file.id := bytes]
            && DigestsMatch(disk', files', sha3)
  {
    hide SlotBytes, Write, EntryAddr, Kept, Blob, Untouched, Layout, ExtentOf, BlobExtent, Contents, DigestsMatch;
    NewBlobKept(st, disk', rest, file, disk1, s);
    forall id | id in st.files && id != file.id
      ensures Blob(disk', st.files[id]) == Blob(st.disk, st.files[id])
    {
      KeptBlob(st.disk, disk1, st.segs, rest, None, id);
      KeptBlob(disk1, disk', st.segs, rest, Some(SegmentOwner(s.seg)), id);
    }
    ContentsPatched(st.disk, disk', st.files, file, bytes, sha3);
  }

  lemma ContentsPatched(disk: seq<Byte>, disk': seq<Byte>, files: Files, file: File, bytes: seq<Byte>, sha3: Hash)
    requires DigestsMatch(disk, files, sha3)
    requires forall id :: id in files && id != file.id ==> Blob(disk', files[id]) == Blob(disk, files[id])
    requires Blob(disk', file) == bytes && file.checksum == sha3(bytes)
    ensures Contents(disk', files[file.id := file]) == Contents(disk, files)[file.id := bytes]
    ensures DigestsMatch(disk', files[file.id := file], sha3)
  {
    hide Blob;
  }

  /** Writing the entry of a file leaves the content that has just been written. */
  lemma NewBlobKept(st: State, disk': seq<Byte>, rest: Files, file: File, disk1: seq<Byte>, s: Slot)
    requires Layout(|disk1|, st.segs, rest) && BlobExtent(file).End() <= |disk1|
    requires ValidSlot(st.segs, s) && Fits(s, Some(FileItem(file)))
    requires disk' == Write(disk1, EntryAddr(st.segs, s), SlotBytes(s, Some(FileItem(file))))
    requires Untouched(st.segs, rest, BlobExtent(file), None)
    ensures Blob(disk', file) == Blob(disk1, file)
  {
    hide SlotBytes, Write, EntryAddr;
    var addr, entry := EntryAddr(st.segs, s), SlotBytes(s, Some(FileItem(file)));
    EntryInside(st.segs, rest, s, Some(FileItem(file)));
    assert Disjoint(BlobExtent(file), ExtentOf(st.segs, rest, SegmentOwner(s.seg)));
    assert ExtentOf(st.segs, rest, SegmentOwner(s.seg)).End() <= |disk1|;
    WriteFrame(disk1, addr, entry, file.contentAddr, file.contentLen);
    WriteSize(disk1, addr, entry);
  }

  // -- Removing a file ---------------------------------------------------------------------------

  lemma RemoveFileStep(st: State, st': State, sha3: Hash, s: Slot, id: Id)
    requires Inv(st, sha3) && id in st.files
    requires s.FileSlot? && ValidSlot(st.segs, s) && ItemAt(st.segs, s) == Some(FileItem(st.files[id]))
    requires st'.dirs == st.dirs && st'.files == st.files - {id} && st'.nextId == st.nextId
    requires TreeOk(st'.dirs, st'.files, st'.nextId) && st'.content == Group(st'.dirs, st'.files)
    requires st'.disk == Write(st.disk, EntryAddr(st.segs, s), Zeros(FILE_ENTRY_SIZE))
    requires st'.segs == SetSlot(st.segs, s, None)
    requires st'.used == Unmarked(st.used, BlobExtent(st.files[id])) && st'.len == st.len
    ensures Inv(st', sha3)
    ensures Contents(st'.disk, st'.files) == Contents(st.disk, st.files) - {id}
    ensures |st'.disk| == |st.disk|
  {
    hide Inv, Write, EntryAddr, SetSlot, TreeOk, Group, OnDisk, SlotsMatch, Layout, Tracks, TableShape, DigestsMatch,
      Unmarked, Zeros, Contents, Changed;
    InvParts(st, sha3);
    WithoutFile(st, sha3, id);
    FileGone(st.dirs, st.files, id);
    assert SlotBytes(s, None) == Zeros(FILE_ENTRY_SIZE) && Fits(s, None);
    assert Lookup(st.dirs, st.files, FileId(id)) == Some(FileItem(st.files[id]));
    assert FreedFor(st, id) == st'.used;
    hide *;
    SlotWritten(st.disk, st.segs, st.files, s, None);
    SlotChange(st.segs, st.dirs, st.files, st'.dirs, st'.files, s, FileId(id), None);
    SetSlotFrames(|st.disk|, st'.used, st.segs, st'.files, s, None);
    RemovedContents(st, st'.disk, sha3, id, SegmentOwner(s.seg));
    InvOf(st', sha3);
  }

  lemma RemovedContents(st: State, disk': seq<Byte>, sha3: Hash, id: Id, except: Owner)
    requires Kept(st.disk, disk', st.segs, st.files, Some(except)) && !except.BlobOwner?
    requires DigestsMatch(st.disk, st.files, sha3)
    ensures Contents(disk', st.files - {id}) == Contents(st.disk, st.files) - {id}
    ensures DigestsMatch(disk', st.files - {id}, sha3)
  {
    forall j | j in st.files
      ensures Blob(disk', st.files[j]) == Blob(st.disk, st.files[j])
    {
      KeptBlob(st.disk, disk', st.segs, st.files, Some(except), j);
    }
    hide *;
    ContentsWithout(st.disk, disk', st.files, sha3, id);
  }

  lemma ContentsWithout(disk: seq<Byte>, disk': seq<Byte>, files: Files, sha3: Hash, id: Id)
    requires DigestsMatch(disk, files, sha3)
    requires forall j :: j in files ==> Blob(disk', files[j]) == Blob(disk, files[j])
    ensures Contents(disk', files - {id}) == Contents(disk, files) - {id}
    ensures DigestsMatch(disk', files - {id}, sha3)
  {
    hide Blob;
  }

  // -- Adding a segment --------------------------------------------------------------------------

  /** The state once a segment has been written at `addr` and linked behind the last one. */
  function WithSegment(st: State, addr: U64, fresh_: FileTableSegment): State
    requires |st.segs| > 0
  {
    var disk1 := Write(st.disk, addr, EncodeSegment(fresh_));
    st.(disk := Write(disk1, SegmentAddr(st.segs, |st.segs| - 1), U64Bytes(addr)),
        segs := Extended(st.segs, addr, fresh_),
        used := Marked(st.used, Extent(addr, EncodedLen(fresh_))),
        len := |disk1|)
  }

  lemma SegmentStep(st: State, sha3: Hash, addr: U64, fresh_: FileTableSegment)
    requires Inv(st, sha3)
    requires fresh_.nextSegmentAddr.None? && EmptySlots(fresh_)
    requires addr <= |st.disk| && |Write(st.disk, addr, EncodeSegment(fresh_))| < U64_LIMIT
    requires DisjointFromAll(Extent(addr, EncodedLen(fresh_)), st.used)
    ensures |st.segs| > 0 && Inv(WithSegment(st, addr, fresh_), sha3)
    ensures Contents(WithSegment(st, addr, fresh_).disk, st.files) == Contents(st.disk, st.files)
    ensures |WithSegment(st, addr, fresh_).disk| == |Write(st.disk, addr, EncodeSegment(fresh_))|
  {
    AllocatorReady(st, sha3);
    InvParts(st, sha3);
    EncodedSize(fresh_);
    SegmentPlaced(st, sha3, addr, fresh_);
    assert EncodedLen(fresh_) > 0;
    var st' := WithSegment(st, addr, fresh_);
    hide *;
    var disk1 := Write(st.disk, addr, EncodeSegment(fresh_));
    SegmentLinked(disk1, st.segs, st.files, addr, fresh_);
    ExtendedItems(st.segs, st.dirs, st.files, addr, fresh_);
    KeptTwice(st, st'.segs, disk1, st'.disk, sha3);
    InvOf(st', sha3);
  }

  lemma SegmentPlaced(st: State, sha3: Hash, addr: U64, fresh_: FileTableSegment)
    requires Inv(st, sha3)
    requires fresh_.nextSegmentAddr.None? && addr <= |st.disk|
    requires DisjointFromAll(Extent(addr, EncodedLen(fresh_)), st.used)
    ensures |st.segs| > 0 && 0 < addr
    ensures var disk1 := Write(st.disk, addr, EncodeSegment(fresh_));
            var segs' := Extended(st.segs, addr, fresh_);
            && At(disk1, addr, EncodeSegment(fresh_)) && OnDisk(disk1, st.segs)
            && TableShape(segs') && Layout(|disk1|, segs', st.files)
            && Tracks(Marked(st.used, Extent(addr, EncodedLen(fresh_))), segs', st.files)
            && Kept(st.disk, disk1, st.segs, st.files, None)
  {
    var e := Extent(addr, EncodedLen(fresh_));
    var bytes := EncodeSegment(fresh_);
    var disk1 := Write(st.disk, addr, bytes);
    AllocatorReady(st, sha3);
    InvParts(st, sha3);
    EncodedSize(fresh_);
    WriteSize(st.disk, addr, bytes);
    WriteStores(st.disk, addr, bytes);
    hide Inv, EncodeSegment, EncodeHeader, Group, TreeOk, OnDisk, ExtentOf, At, Write, SlotsMatch, DigestsMatch, Packed;
    FreeForAll(st.used, st.segs, st.files, e);
    WriteKeeps(st.disk, addr, bytes, st.segs, st.files, None);
    KeptOnDisk(st.disk, disk1, st.segs, st.files);
    ExtendedLayout(st.segs, addr, fresh_, st.files);
    LayoutGrows(|st.disk|, |disk1|, st.segs, st.files);
    assert e.End() <= |disk1|;
    hide *;
    OwnerAdded(|disk1|, st.used, st.segs, st.files, Extended(st.segs, addr, fresh_), st.files, SegmentOwner(|st.segs|), e);
  }

  ghost predicate EmptySlots(s: FileTableSegment) {
    && (forall j :: 0 <= j < |s.dirs| ==> s.dirs[j].None?)
    && (forall j :: 0 <= j < |s.files| ==> s.files[j].None?)
  }

  lemma ExtendedItems(segs: Segs, dirs: Dirs, files: Files, addr: U64, fresh_: FileTableSegment)
    requires |segs| > 0 && EmptySlots(fresh_) && SlotsMatch(segs, dirs, files)
    ensures SlotsMatch(Extended(segs, addr, fresh_), dirs, files)
  {
    ExtendedKeepsItems(segs, addr, fresh_);
    SameItems(segs, Extended(segs, addr, fresh_), dirs, files);
  }

  lemma ExtendedKeepsItems(segs: Segs, addr: U64, fresh_: FileTableSegment)
    requires |segs| > 0 && EmptySlots(fresh_)
    ensures forall s :: ItemAt(Extended(segs, addr, fresh_), s) == ItemAt(segs, s)
  {
  }

  lemma SameItems(segs: Segs, segs': Segs, dirs: Dirs, files: Files)
    requires SlotsMatch(segs, dirs, files)
    requires forall s :: ItemAt(segs', s) == ItemAt(segs, s)
    ensures SlotsMatch(segs', dirs, files)
  {
    hide ItemAt, Lookup;
    forall k | Lookup(dirs, files, k).Some?
      ensures Stored(segs', Lookup(dirs, files, k).value, k)
    {
      assert Stored(segs, Lookup(dirs, files, k).value, k);
      var s :| ItemAt(segs, s) == Lookup(dirs, files, k);
      assert ItemAt(segs', s) == Lookup(dirs, files, k);
    }
    forall s, t | SameIdentifier(segs', s, t)
      ensures s == t
    {
      assert SameIdentifier(segs, s, t);
    }
  }

  lemma KeptTwice(st: State, segs': Segs, disk1: seq<Byte>, disk': seq<Byte>, sha3: Hash)
    requires |st.segs| > 0
    requires Kept(st.disk, disk1, st.segs, st.files, None) && DigestsMatch(st.disk, st.files, sha3)
    requires Kept(disk1, disk', segs', st.files, Some(SegmentOwner(|st.segs| - 1)))
    ensures Contents(disk', st.files) == Contents(st.disk, st.files) && DigestsMatch(disk', st.files, sha3)
  {
    forall id | id in st.files
      ensures Blob(disk', st.files[id]) == Blob(st.disk, st.files[id])
    {
      KeptBlob(st.disk, disk1, st.segs, st.files, None, id);
      KeptBlob(disk1, disk', segs', st.files, Some(SegmentOwner(|st.segs| - 1)), id);
    }
    hide Blob, Kept;
  }

  // -- A new archive -----------------------------------------------------------------------------

  /** A header and one empty segment written at the start of a store make a valid archive, whatever the store held. */
  lemma CreatedInv(disk: seq<Byte>, st: State, sha3: Hash, segment: FileTableSegment)
    requires segment.nextSegmentAddr.None? && EmptySlots(segment)
    requires st.disk == Write(disk, 0, EncodeHeader(Header(One)) + EncodeSegment(segment))
    requires st.segs == [segment] && st.dirs == map[] && st.files == map[] && st.content == map[Root := EMPTY_CONTENT]
    requires st.used == [Extent(0, HEADER_SIZE), Extent(HEADER_SIZE, EncodedLen(segment))]
    requires st.len == |st.disk| < U64_LIMIT && st.nextId == 1
    ensures Inv(st, sha3)
  {
    hide Inv, OnDisk, Layout, Tracks, SlotsMatch, Group, Write, EncodeHeader, EncodeSegment, EmptySlots;
    CreatedOnDisk(disk, st.disk, segment);
    CreatedLayout(|st.disk|, segment);
    CreatedTree(segment);
    EmptyTree(st.disk, sha3);
    assert TableShape(st.segs);
    InvOf(st, sha3);
  }

  lemma CreatedLayout(size: nat, segment: FileTableSegment)
    requires HEADER_SIZE + EncodedLen(segment) <= size
    ensures Layout(size, [segment], map[])
    ensures Tracks([Extent(0, HEADER_SIZE), Extent(HEADER_SIZE, EncodedLen(segment))], [segment], map[])
  {
    hide EncodedLen;
    var segs, files: Files := [segment], map[];
    CreatedZones(segment);
    hide ExtentOf;
    var used := [CreatedZone(segment, HeaderOwner), CreatedZone(segment, SegmentOwner(0))];
    assert Layout(size, segs, files);
    forall e
      ensures e in used <==> Owned(segs, files, e)
    {
      if e in used {
        var o := if e == used[0] then HeaderOwner else SegmentOwner(0);
        assert ExtentOf(segs, files, o) == e;
      }
    }
  }

  /** The zones of an archive that has one segment and no file. */
  function CreatedZone(segment: FileTableSegment, o: Owner): Extent {
    match o
    case HeaderOwner => Extent(0, HEADER_SIZE)
    case SegmentOwner(0) => Extent(HEADER_SIZE, EncodedLen(segment))
    case _ => Extent(0, 0)
  }

  lemma CreatedZones(segment: FileTableSegment)
    ensures EncodedLen(segment) > 0
    ensures forall o :: ExtentOf([segment], map[], o) == CreatedZone(segment, o)
  {
  }

  lemma EmptyTree(disk: seq<Byte>, sha3: Hash)
    ensures TreeOk(map[], map[], 1) && DigestsMatch(disk, map[], sha3)
  {
  }

  lemma CreatedTree(segment: FileTableSegment)
    requires EmptySlots(segment)
    ensures SlotsMatch([segment], map[], map[])
    ensures map[Root := EMPTY_CONTENT] == Group(map[], map[])
  {
    assert forall s :: ItemAt([segment], s).None?;
    var dirs: Dirs, files: Files := map[], map[];
    assert Refs(dirs) == {Root};
    assert ChildrenOf(dirs, files, Root) == EMPTY_CONTENT;
  }

  lemma CreatedOnDisk(disk: seq<Byte>, disk': seq<Byte>, segment: FileTableSegment)
    requires disk' == Write(disk, 0, EncodeHeader(Header(One)) + EncodeSegment(segment))
    ensures OnDisk(disk', [segment])
    ensures HEADER_SIZE + EncodedLen(segment) <= |disk'|
  {
    hide EncodeHeader, EncodeSegment, Write, At;
    EncodedSize(segment);
    WriteSize(disk, 0, EncodeHeader(Header(One)) + EncodeSegment(segment));
    WriteStores(disk, 0, EncodeHeader(Header(One)) + EncodeSegment(segment));
    AtAppend(disk', 0, EncodeHeader(Header(One)), EncodeSegment(segment));
    assert SegmentAddr([segment], 0) == HEADER_SIZE;
  }
}
