/** The archive engine: every operation patches the disk in place and updates the mirror and the allocator by hand. */
module Archives {
  import opened Wrappers
  import opened Bytes
  import opened Sequences
  import opened Sources
  import opened Names
  import opened Entries
  import opened Segments
  import opened Headers
  import opened Coverages
  import opened FileTable
  import opened Trees
  import opened Layouts
  import opened Rescans
  import opened States
  import opened Operations
  import opened Removals
  import opened Health
  import opened Reopening
  import opened FileReaders
  import opened Frames

  type Capacity = n: int | 0 < n < U32_LIMIT witness 1

  datatype ArchiveConfig = ArchiveConfig(
    defaultDirsCapacity: Capacity,
    defaultFilesCapacity: Capacity,
    firstDirsCapacityOverride: Option<Capacity>,
    firstFilesCapacityOverride: Option<Capacity>)

  datatype ArchiveError =
    | DuplicateName(name: Name, parentDir: DirRef)
    | DirectoryNotFound
    | FileNotFound
    | ReadFailed(reading: FileReaderError)

  datatype ArchiveMetadataDecodingError =
    | InvalidHeader(header: HeaderDecodingError)
    | InvalidFileTableSegment(segment: SegmentDecodingError)
    | FileTableErrors(errors: seq<FileTableCorrectnessError>)

  datatype SegmentEntry = SegmentEntry(segmentIndex: nat, entryIndex: nat, entryAddr: nat)

  datatype ItemType = DirectoryType | FileType

  const CHUNK_SIZE := 4096

  function EmptySegment(dirs: Capacity, files: Capacity): (s: FileTableSegment)
    ensures EmptySlots(s) && s.nextSegmentAddr.None? && |s.dirs| == dirs && |s.files| == files
  {
    SegmentData(None, seq(dirs, _ => None), seq(files, _ => None))
  }

  function SlotOf(itemType: ItemType, entry: SegmentEntry): Slot {
    match itemType
    case DirectoryType => DirSlot(entry.segmentIndex, entry.entryIndex)
    case FileType => FileSlot(entry.segmentIndex, entry.entryIndex)
  }

  function TypeOf(k: ItemId): ItemType {
    if k.DirId? then DirectoryType else FileType
  }

  function ReadOrFailed(content: Result<seq<Byte>, FileReaderError>): Result<seq<Byte>, ArchiveError> {
    match content
    case Ok(bytes) => Ok(bytes)
    case Err(error) => Err(ReadFailed(error))
  }

  /** Why a name cannot be used in a directory, if so: because of the items that are there. */
  function NameCheck(dirs: Dirs, files: Files, name: Name, parentDir: DirRef): Result<(), ArchiveError> {
    if parentDir !in Refs(dirs) then Err(DirectoryNotFound)
    else if name in NamesIn(dirs, files, parentDir) then Err(DuplicateName(name, parentDir))
    else Ok(())
  }

  /** Space taken by a segment that is added when no slot is left. */
  function SegmentRoom(conf: ArchiveConfig): nat {
    EncodedLen(EmptySegment(conf.defaultDirsCapacity, conf.defaultFilesCapacity))
  }

  /** The size of a store once a new archive has been written at its start. */
  function NewSize(size: nat, conf: ArchiveConfig): nat {
    var end := HEADER_SIZE + EncodedLen(EmptySegment(conf.firstDirsCapacityOverride.GetOr(conf.defaultDirsCapacity),
                                                     conf.firstFilesCapacityOverride.GetOr(conf.defaultFilesCapacity)));
    if size < end then end else size
  }

  /** A filled slot, or an empty one, at a known address. */
  ghost predicate Locates(segs: Segs, itemType: ItemType, entry: SegmentEntry) {
    ValidSlot(segs, SlotOf(itemType, entry)) && entry.entryAddr == EntryAddr(segs, SlotOf(itemType, entry))
  }

  class Archive {
    const conf: ArchiveConfig
    const sha3: Hash
    const source: Source
    const header: Header
    const coverage: Coverage
    var fileSegments: Segs
    var dirs: Dirs
    var files: Files
    var dirsContent: map<DirRef, DirContent>
    var nextId: nat

    ghost function State(): State
      reads this, source, coverage
    {
      States.State(source.data, fileSegments, dirs, files, dirsContent, coverage.segments, coverage.len, nextId)
    }

    ghost predicate Valid()
      reads this, source, coverage
    {
      0 < nextId < U64_LIMIT && Inv(State(), sha3)
    }

    /** The content of every file, read straight from the disk. */
    ghost function FileContents(): map<Id, seq<Byte>>
      reads this, source
    {
      Contents(source.data, files)
    }

    /** Identifiers and addresses that some creations and some bytes of content may still need. */
    ghost predicate HasRoom(creations: nat, bytes: nat)
      reads this, source
    {
      && nextId + creations < U64_LIMIT
      && |source.data| + creations * SegmentRoom(conf) + bytes < U64_LIMIT
    }

    ghost predicate AllocatorSound()
      reads source, coverage
    {
      && coverage.len == |source.data|
      && Ready(coverage.segments, 0)
      && Within(coverage.segments, coverage.len)
    }

    // -- Creation --------------------------------------------------------------------------------

    constructor FromParts(conf: ArchiveConfig, sha3: Hash, source: Source, header: Header, coverage: Coverage,
                          fileSegments: Segs, dirs: Dirs, files: Files, dirsContent: map<DirRef, DirContent>, nextId: nat)
      ensures this.conf == conf && this.sha3 == sha3 && this.source == source && this.coverage == coverage
      ensures State() == States.State(source.data, fileSegments, dirs, files, dirsContent,
                                      coverage.segments, coverage.len, nextId)
    {
      this.conf, this.sha3, this.source, this.header, this.coverage := conf, sha3, source, header, coverage;
      this.fileSegments, this.dirs, this.files := fileSegments, dirs, files;
      this.dirsContent, this.nextId := dirsContent, nextId;
    }

    /** Writes a header and an empty first segment at the start of the source. */
    constructor Create(source: Source, conf: ArchiveConfig, sha3: Hash)
      requires |source.data| < U64_LIMIT
      modifies source
      ensures Valid() && this.source == source && this.conf == conf && this.sha3 == sha3 && fresh(coverage)
      ensures dirs == map[] && files == map[] && nextId == 1
      ensures fileSegments == [EmptySegment(conf.firstDirsCapacityOverride.GetOr(conf.defaultDirsCapacity),
                                            conf.firstFilesCapacityOverride.GetOr(conf.defaultFilesCapacity))]
      ensures |source.data| == NewSize(old(|source.data|), conf)
    {
      var header := Header(One);
      var segment := EmptySegment(conf.firstDirsCapacityOverride.GetOr(conf.defaultDirsCapacity),
                                  conf.firstFilesCapacityOverride.GetOr(conf.defaultFilesCapacity));
      ghost var disk := source.data;
      source.SetPosition(0);
      var headerBytes := Headers.Encode(header);
      source.WriteAll(headerBytes);
      var segmentBytes := Segments.Encode(segment);
      source.WriteAll(segmentBytes);
      var len := source.SeekLen();
      FirstScan(segment);
      var coverage := ComputeCoverage([HEADER_SIZE], [segment], len);

      this.conf, this.sha3, this.source, this.header, this.coverage := conf, sha3, source, header, coverage;
      dirs, files := map[], map[];
      dirsContent := map[Root := EMPTY_CONTENT];
      fileSegments := [segment];
      nextId := 1;
      new;
      hide Inv, EncodeSegment, EncodeHeader;
      EncodedSize(segment);
      WriteTwice(disk, 0, headerBytes, segmentBytes);
      WriteSize(disk, 0, headerBytes + segmentBytes);
      CreatedInv(disk, State(), sha3, segment);
    }

    // -- Opening and closing ---------------------------------------------------------------------

    /** Rebuilds an archive from the bytes of the source, or tells what is wrong with them. */
    static method Open(source: Source, conf: ArchiveConfig, sha3: Hash)
      returns (r: Result<Archive, ArchiveMetadataDecodingError>)
      requires DecodeHeader(source.data).Ok? ==> Openable(source.data)
      modifies source`pos
      ensures DecodeHeader(source.data).Err? ==>
                r == Err(ArchiveMetadataDecodingError.InvalidHeader(DecodeHeader(source.data).error))
      ensures forall fuel: nat :: DecodeHeader(source.data).Ok? && WalkChain(source.data, HEADER_SIZE, fuel).Some? ==>
                match WalkChain(source.data, HEADER_SIZE, fuel).value
                case Err(error) => r == Err(InvalidFileTableSegment(error))
                case Ok(t) =>
                  && (r.Ok? <==> Healthy(FilledDirs(t.segs), FilledFiles(t.segs)))
                  && (r.Err? ==> r == Err(FileTableErrors(TableErrors(FilledDirs(t.segs), FilledFiles(t.segs)))))
                  && (r.Ok? ==> Rebuilt(r.value.State(), source.data, t))
      ensures r.Ok? ==> fresh(r.value) && fresh(r.value.coverage) && r.value.source == source
                        && r.value.conf == conf && r.value.sha3 == sha3
    {
      hide DecodeHeader, Healthy, FilledDirs, FilledFiles, Lists, IsNextId, MarkAll, AllZones, WalkChain, Scannable,
        TableErrors;
      var headerRead := Headers.Decode(source);
      if headerRead.Err? {
        return Err(ArchiveMetadataDecodingError.InvalidHeader(headerRead.error));
      }
      var walked := ReadChain(source);
      if walked.Err? {
        return Err(InvalidFileTableSegment(walked.error));
      }
      var t := walked.value;
      ghost var fuel: nat :| WalkChain(source.data, HEADER_SIZE, fuel).Some?;
      assert WalkChain(source.data, HEADER_SIZE, fuel) == Some(walked);
      ScannableTable(t);
      var len := source.SeekLen();
      var coverage := ComputeCoverage(t.addrs, t.segs, len);
      var dirs := CollectDirs(FilledDirs(t.segs));
      var files := CollectFiles(FilledFiles(t.segs));
      var check := CheckFileTableCorrectness(t.segs);
      if check.Err? {
        return Err(FileTableErrors(check.error));
      }
      var nextId := NextIdAfter(dirs.Keys + files.Keys);
      var archive := new Archive.FromParts(conf, sha3, source, headerRead.value, coverage,
                                           t.segs, dirs, files, check.value, nextId);
      r := Ok(archive);
    }

    /** Gives the source back. */
    method Close() returns (s: Source)
      ensures s == source
    {
      s := source;
    }

    // -- Reading ---------------------------------------------------------------------------------

    function GetDir(id: Id): (r: Option<Directory>)
      reads this
    {
      if id in dirs then Some(dirs[id]) else None
    }

    function GetFile(id: Id): (r: Option<File>)
      reads this
    {
      if id in files then Some(files[id]) else None
    }

    /** The identifiers that a directory lists. */
    function GetDirContent(ref: DirRef): (r: Result<(set<Id>, set<Id>), ArchiveError>)
      requires Valid()
      reads this, source, coverage
      ensures r == if ref in Refs(dirs) then Ok((DirsIn(dirs, ref), FilesIn(files, ref))) else Err(DirectoryNotFound)
    {
      ContentIs(State(), sha3);
      if ref in dirsContent then Ok((dirsContent[ref].dirs, dirsContent[ref].files)) else Err(DirectoryNotFound)
    }

    /** The items of a directory, each once and in any order, directories first. */
    method ReadDir(ref: DirRef) returns (r: Result<seq<Item>, ArchiveError>)
      requires Valid()
      ensures r.Err? ==> r == Err(DirectoryNotFound)
      ensures r.Ok? <==> ref in Refs(dirs)
      ensures r.Ok? ==> forall item :: item in r.value <==>
                Lookup(dirs, files, item.Id()) == Some(item) && item.Parent() == ref
      ensures r.Ok? ==> Distinct(r.value)
      ensures r.Ok? ==> forall i, j :: 0 <= i < j < |r.value| && r.value[j].DirItem? ==> r.value[i].DirItem?
    {
      hide Inv, ChildrenOf, Group, TreeOk, Refs;
      ContentIs(State(), sha3);
      if ref !in dirsContent {
        return Err(DirectoryNotFound);
      }
      var dirIds := ListOf(dirsContent[ref].dirs);
      var fileIds := ListOf(dirsContent[ref].files);
      ListedItems(State(), sha3, ref, dirIds, fileIds);
      r := Ok(DirItems(dirs, dirIds) + FileItems(files, fileIds));
    }

    /** A reader on the content of a file; in a valid archive it will give that content. */
    method ReadFile(id: Id) returns (r: Result<FileReader, ArchiveError>)
      modifies source`pos
      ensures id !in files ==> r == Err(FileNotFound)
      ensures id in files ==>
                && r.Ok? && fresh(r.value) && r.value.Valid() && r.value.pos == 0
                && r.value.source == source && r.value.start == files[id].contentAddr
                && r.value.len == files[id].contentLen && r.value.expectedChecksum == files[id].checksum
                && r.value.sha3 == sha3
      ensures Valid() && id in files ==>
                RestOfFile(source.data, r.value.start, r.value.len, 0, r.value.expectedChecksum, sha3)
                   == Ok(FileContents()[id])
    {
      hide Inv, RestOfFile;
      if id !in files {
        return Err(FileNotFound);
      }
      if Valid() {
        StoredContentReads(State(), sha3, id);
      }
      var file := files[id];
      source.SetPosition(file.contentAddr);
      var reader := new FileReader(source, file.contentLen, file.checksum, sha3);
      r := Ok(reader);
    }

    /**
     * The content of a file. On a valid archive no checksum fails and no byte is missing; on a damaged one a content
     * that does not have its digest is refused.
     */
    method ReadFileToVec(id: Id) returns (r: Result<seq<Byte>, ArchiveError>)
      modifies source`pos
      ensures Valid() ==> r == if id in files then Ok(FileContents()[id]) else Err(FileNotFound)
      ensures id !in files ==> r == Err(FileNotFound)
      ensures id in files && files[id].contentLen > 0 ==>
                var addr, end := files[id].contentAddr, files[id].contentAddr + files[id].contentLen;
                r == if end > |source.data| then Err(ReadFailed(FileReaderError.Io(UnexpectedEof)))
                     else if sha3(source.data[addr..end]) == files[id].checksum then Ok(source.data[addr..end])
                     else Err(ReadFailed(ChecksumMismatch))
    {
      hide Inv;
      var found := ReadFile(id);
      if found.Err? {
        return Err(found.error);
      }
      var content := found.value.ReadToVec();
      r := ReadOrFailed(content);
    }

    // -- Allocation ------------------------------------------------------------------------------

    /** Writes data into the best free zone, or behind everything when none is large enough. */
    method WriteDataWherePossible(data: Source) returns (addr: nat, checksum: Digest)
      requires data != source && AllocatorSound()
      modifies source, coverage, data`pos
      ensures addr <= |old(source.data)| && source.data == Write(old(source.data), addr, data.data)
      ensures Allotted(old(coverage.segments), old(coverage.len), |data.data|, addr, coverage.segments, coverage.len)
      ensures DisjointFromAll(Extent(addr, |data.data|), old(coverage.segments))
      ensures coverage.segments == Marked(old(coverage.segments), Extent(addr, |data.data|))
      ensures coverage.len == |source.data| <= |old(source.data)| + |data.data|
      ensures checksum == sha3(data.data)
      ensures forall zone :: zone in FreeZones(old(coverage.segments), 0, old(coverage.len)) && zone.len >= |data.data| ==>
                |source.data| == |old(source.data)|
    {
      ghost var disk, used := source.data, coverage.segments;
      hide FreeZones, IsBestPlace, Ready, Within, Write, MarkingAllowed;
      var len := data.SeekLen();
      var growing: bool;
      addr, growing := FindPlace(len);

      data.SetPosition(0);
      source.SetPosition(addr);
      var hashed := CopyChunks(data, source, len);
      WriteSize(disk, addr, data.data);
      if growing {
        var newLen := source.SeekLen();
        coverage.GrowTo(newLen);
      }
      coverage.MarkAsUsed(addr, len);
      checksum := sha3(hashed);
    }

    /** The best place for a number of bytes; tells if the archive has to grow, as no free zone is large enough. */
    method FindPlace(len: nat) returns (addr: nat, growing: bool)
      requires AllocatorSound()
      ensures IsBestPlace(coverage.segments, coverage.len, len, addr) && addr <= coverage.len
      ensures DisjointFromAll(Extent(addr, len), coverage.segments) && MarkingAllowed(coverage.segments, addr, len)
      ensures !growing ==> addr + len <= coverage.len
      ensures growing <==> forall zone :: zone in FreeZones(coverage.segments, 0, coverage.len) ==> zone.len < len
    {
      var zone := coverage.FindFreeZoneFor(len);
      growing := zone.None?;
      addr := if zone.Some? then zone.value.start else coverage.NextWritableAddr();
      PlaceIsFree(coverage.segments, coverage.len, zone, addr, len);
    }

    // -- Slots -----------------------------------------------------------------------------------

    /** The address of a segment, found in the next pointer of the previous one: the segment is stored there. */
    function SegmentAddress(segmentIndex: nat): (addr: nat)
      requires TableShape(fileSegments) && segmentIndex < |fileSegments|
      reads this, source, coverage
      ensures Valid() ==> At(source.data, addr, EncodeSegment(fileSegments[segmentIndex]))
      ensures addr == SegmentAddr(fileSegments, segmentIndex)
    {
      SegmentStored(State(), sha3, segmentIndex);
      if segmentIndex == 0 then HEADER_SIZE else fileSegments[segmentIndex - 1].nextSegmentAddr.value
    }

    /** The address of a slot of the table. */
    function EntryAddress(itemType: ItemType, i: nat, j: nat): (addr: nat)
      requires TableShape(fileSegments) && ValidSlot(fileSegments, SlotOf(itemType, SegmentEntry(i, j, 0)))
      reads this, source, coverage
      ensures addr == EntryAddr(fileSegments, SlotOf(itemType, SegmentEntry(i, j, 0)))
    {
      SegmentAddress(i) +
      match itemType
      case DirectoryType => DirEntryOffset(fileSegments[i], j).value
      case FileType => FileEntryOffset(fileSegments[i], j).value
    }

    /** The slot that holds an item. */
    method GetItemEntry(k: ItemId) returns (entry: Option<SegmentEntry>)
      requires Valid()
      ensures entry.Some? <==> Lookup(dirs, files, k).Some?
      ensures entry.Some? ==> Locates(fileSegments, TypeOf(k), entry.value)
      ensures entry.Some? ==> ItemAt(fileSegments, SlotOf(TypeOf(k), entry.value)) == Lookup(dirs, files, k)
    {
      hide Inv, Lookup, EntryAddr, TableShape;
      TableOf(State(), sha3);
      for i := 0 to |fileSegments|
        invariant NotBefore(fileSegments, k, i)
      {
        var j := ItemPosition(fileSegments[i], k);
        if j.Some? {
          var addr := EntryAddress(TypeOf(k), i, j.value);
          entry := Some(SegmentEntry(i, j.value, addr));
          FoundEntry(State(), sha3, SlotOf(TypeOf(k), entry.value), k);
          return;
        }
        NotInSegment(fileSegments, k, i);
      }
      AbsentItem(State(), sha3, k);
      entry := None;
    }

    /** The last free slot of the last segment that has one. */
    method LastFreeSlot(itemType: ItemType) returns (entry: Option<SegmentEntry>)
      requires TableShape(fileSegments)
      ensures entry.Some? <==> FreeSlot(fileSegments, itemType)
      ensures entry.Some? ==> Locates(fileSegments, itemType, entry.value)
      ensures entry.Some? ==> ItemAt(fileSegments, SlotOf(itemType, entry.value)).None?
      ensures entry.Some? ==> FilledBehind(fileSegments, itemType, entry.value)
    {
      hide EntryAddr;
      var i := |fileSegments|;
      while i > 0
        invariant 0 <= i <= |fileSegments|
        invariant forall n :: i <= n < |fileSegments| ==> AllFilled(fileSegments[n], itemType)
      {
        i := i - 1;
        var segment := fileSegments[i];
        var j: Option<nat>;
        if itemType.DirectoryType? {
          j := LastEmpty(segment.dirs);
        } else {
          j := LastEmpty(segment.files);
        }
        if j.Some? {
          assert !AllFilled(segment, itemType);
          var addr := EntryAddress(itemType, i, j.value);
          return Some(SegmentEntry(i, j.value, addr));
        }
      }
      entry := None;
    }

    /** The slot that a new item goes to: the last free one, or the first one of a new segment. */
    method GetAddrForItemInsert(itemType: ItemType) returns (entry: SegmentEntry)
      requires Valid() && |source.data| + SegmentRoom(conf) < U64_LIMIT
      modifies this`fileSegments, source, coverage
      ensures Valid()
      ensures Locates(fileSegments, itemType, entry)
      ensures ItemAt(fileSegments, SlotOf(itemType, entry)).None?
      ensures FileContents() == old(FileContents())
      ensures |source.data| <= old(|source.data|) + SegmentRoom(conf)
      ensures FreeSlot(old(fileSegments), itemType) ==> State() == old(State())
      ensures NextSlot(old(fileSegments), SlotOf(itemType, entry))
      ensures RoomMade(old(State()), fileSegments, conf, itemType, coverage.segments, coverage.len)
      ensures TableExtended(old(State()), State())
    {
      hide Inv, EntryAddr, EmptySegment, FreeSlot, FilledBehind, Contents, TableShape, ItemAt, EncodedLen, TableExtended,
        NextSlot, Allotted, SegmentAddr, SegmentRoom;
      ghost var segs := fileSegments;
      TableOf(State(), sha3);
      NothingExtended(State());
      var free := LastFreeSlot(itemType);
      if free.Some? {
        FreeIsNext(segs, itemType, free.value);
        return free.value;
      }
      NewIsNext(segs, itemType);
      var n := CreateSegment();
      TableOf(State(), sha3);
      NewSlotIsFree(fileSegments, n, itemType);
      var addr := EntryAddress(itemType, n, 0);
      entry := SegmentEntry(n, 0, addr);
    }

    /** Allocates and writes a segment of empty slots, then links it behind the last one. */
    method CreateSegment() returns (segmentIndex: nat)
      requires Valid() && |source.data| + SegmentRoom(conf) < U64_LIMIT
      modifies this`fileSegments, source, coverage
      ensures Valid()
      ensures segmentIndex == old(|fileSegments|) && |fileSegments| == segmentIndex + 1
      ensures fileSegments[segmentIndex] == EmptySegment(conf.defaultDirsCapacity, conf.defaultFilesCapacity)
      ensures Allotted(old(coverage.segments), old(coverage.len), SegmentRoom(conf), SegmentAddr(fileSegments, segmentIndex),
                       coverage.segments, coverage.len)
      ensures TableExtended(old(State()), State())
      ensures FileContents() == old(FileContents())
      ensures |source.data| <= old(|source.data|) + SegmentRoom(conf)
    {
      hide Inv, TableExtended, EncodeSegment, Write, Marked, Ready, Within, FreeZones, EmptySegment, ItemAt, SegmentAddr,
        TableShape, Extended, Allotted;
      ghost var st := State();
      var segment := EmptySegment(conf.defaultDirsCapacity, conf.defaultFilesCapacity);
      var bytes := Segments.Encode(segment);
      EncodedSize(segment);
      AllocatorReady(st, sha3);
      TableOf(st, sha3);
      var data := new Source(bytes);
      var addr, _ := WriteDataWherePossible(data);
      SegmentAdded(st, sha3, addr, segment);
      LinkSegment(addr, segment);
      assert State() == WithSegment(st, addr, segment);
      segmentIndex := |fileSegments| - 1;
    }

    /** Points the last segment to a new one that follows it. */
    method LinkSegment(addr: U64, segment: FileTableSegment)
      requires |fileSegments| > 0 && TableShape(fileSegments)
      modifies this`fileSegments, source
      ensures fileSegments == Extended(old(fileSegments), addr, segment)
      ensures |fileSegments| == old(|fileSegments|) + 1 && fileSegments[old(|fileSegments|)] == segment
      ensures SegmentAddr(fileSegments, old(|fileSegments|)) == addr
      ensures source.data == Write(old(source.data), SegmentAddr(old(fileSegments), old(|fileSegments|) - 1), U64Bytes(addr))
    {
      hide Inv, TableShape, Write, SegmentAddr;
      LinkedAddr(fileSegments, addr, segment);
      var last := |fileSegments| - 1;
      var lastAddr := SegmentAddress(last);
      source.SetPosition(lastAddr);
      source.WriteAll(U64Bytes(addr));
      fileSegments := fileSegments[last := fileSegments[last].(nextSegmentAddr := Some(addr))];
      fileSegments := fileSegments + [segment];
    }

    // -- Operations ------------------------------------------------------------------------------

    /** Looks a name up in the listing of a directory, and so among the items that are in it. */
    method EnsureNoDuplicateName(name: Name, parentDir: DirRef) returns (r: Result<(), ArchiveError>)
      requires Valid()
      ensures r.Ok? <==> parentDir in Refs(dirs) && name !in NamesIn(dirs, files, parentDir)
      ensures r.Err? ==> r.error == if parentDir in Refs(dirs) then DuplicateName(name, parentDir) else DirectoryNotFound
      ensures r.Ok? ==> parentDir in dirsContent && name !in dirsContent[parentDir].names
    {
      hide Inv, Refs, NamesIn, Group, TreeOk;
      ContentIs(State(), sha3);
      if parentDir !in dirsContent {
        return Err(DirectoryNotFound);
      }
      r := if name in dirsContent[parentDir].names then Err(DuplicateName(name, parentDir)) else Ok(());
    }

    /** Adds an item to the listing of its parent; neither its name nor its identifier may be there already. */
    method ListChild(item: Item)
      requires item.Parent() in dirsContent
      requires item.Name() !in dirsContent[item.Parent()].names
      requires item.DirItem? ==> item.dir.id !in dirsContent[item.Parent()].dirs
      requires item.FileItem? ==> item.file.id !in dirsContent[item.Parent()].files
      modifies this`dirsContent
      ensures dirsContent == Joined(old(dirsContent), item)
    {
      var content := dirsContent[item.Parent()];
      assert item.Name() !in content.names;
      content := content.(names := content.names + {item.Name()});
      match item {
        case DirItem(dir) =>
          assert dir.id !in content.dirs;
          content := content.(dirs := content.dirs + {dir.id});
        case FileItem(file) =>
          assert file.id !in content.files;
          content := content.(files := content.files + {file.id});
      }
      dirsContent := dirsContent[item.Parent() := content];
    }

    /** Takes an item, which must be there, out of the listing of its parent. */
    method UnlistChild(item: Item)
      requires item.Parent() in dirsContent
      requires item.Name() in dirsContent[item.Parent()].names
      requires item.DirItem? ==> item.dir.id in dirsContent[item.Parent()].dirs
      requires item.FileItem? ==> item.file.id in dirsContent[item.Parent()].files
      modifies this`dirsContent
      ensures dirsContent == Left(old(dirsContent), item)
    {
      var content := dirsContent[item.Parent()];
      match item {
        case DirItem(dir) =>
          assert dir.id in content.dirs;
          content := content.(dirs := content.dirs - {dir.id});
        case FileItem(file) =>
          assert file.id in content.files;
          content := content.(files := content.files - {file.id});
      }
      assert item.Name() in content.names;
      content := content.(names := content.names - {item.Name()});
      dirsContent := dirsContent[item.Parent() := content];
    }

    /** Changes a name in the listing of a directory. */
    method RelistName(parentDir: DirRef, oldName: Name, newName: Name)
      requires parentDir in dirsContent
      requires oldName in dirsContent[parentDir].names && newName !in dirsContent[parentDir].names
      modifies this`dirsContent
      ensures dirsContent == var c := old(dirsContent)[parentDir];
                             old(dirsContent)[parentDir := c.(names := c.names - {oldName} + {newName})]
    {
      var content := dirsContent[parentDir];
      assert oldName in content.names;
      content := content.(names := content.names - {oldName});
      assert newName !in content.names;
      content := content.(names := content.names + {newName});
      dirsContent := dirsContent[parentDir := content];
    }

    /** Writes the entry of a directory. */
    method WriteDirEntry(entryAddr: nat, dir: Directory)
      modifies source
      ensures source.data == Write(old(source.data), entryAddr, EncodeDir(dir))
    {
      source.SetPosition(entryAddr);
      var bytes := EncodeDirectoryEntry(dir);
      source.WriteAll(bytes);
    }

    /** Writes the entry of a file. */
    method WriteFileEntry(entryAddr: nat, file: File)
      modifies source
      ensures source.data == Write(old(source.data), entryAddr, EncodeFile(file))
    {
      var bytes := EncodeFileEntry(file);
      source.SetPosition(entryAddr);
      source.WriteAll(bytes);
    }

    /** Puts a directory into one slot of the table in memory. */
    method FillDir(entry: SegmentEntry, dir: Directory)
      requires ValidSlot(fileSegments, SlotOf(DirectoryType, entry))
      modifies this`fileSegments
      ensures fileSegments == SetSlot(old(fileSegments), SlotOf(DirectoryType, entry), Some(DirItem(dir)))
    {
      var segment := fileSegments[entry.segmentIndex];
      fileSegments := fileSegments[entry.segmentIndex := segment.(dirs := segment.dirs[entry.entryIndex := Some(dir)])];
    }

    /** Puts a file into one slot of the table in memory. */
    method FillFile(entry: SegmentEntry, file: File)
      requires ValidSlot(fileSegments, SlotOf(FileType, entry))
      modifies this`fileSegments
      ensures fileSegments == SetSlot(old(fileSegments), SlotOf(FileType, entry), Some(FileItem(file)))
    {
      var segment := fileSegments[entry.segmentIndex];
      fileSegments := fileSegments[entry.segmentIndex := segment.(files := segment.files[entry.entryIndex := Some(file)])];
    }

    /** Creates a directory; fails, and changes nothing, if the parent is missing or already lists the name. */
    method CreateDir(parentDir: DirRef, name: Name, modifTime: U64) returns (r: Result<Id, ArchiveError>)
      requires Valid() && HasRoom(1, 0)
      modifies this, source, coverage
      ensures Valid()
      ensures NameCheck(old(dirs), old(files), name, parentDir).Err? ==>
                r == Err(NameCheck(old(dirs), old(files), name, parentDir).error) && State() == old(State())
      ensures NameCheck(old(dirs), old(files), name, parentDir).Ok? ==>
                r == Ok(old(nextId)) && nextId == old(nextId) + 1
                && dirs == old(dirs)[old(nextId) := Directory(old(nextId), parentDir, name, modifTime)]
                && files == old(files) && FileContents() == old(FileContents())
                && ItemAdded(old(State()), State(), DirItem(dirs[old(nextId)]))
                && RoomMade(old(State()), fileSegments, conf, DirectoryType, coverage.segments, coverage.len)
      ensures |source.data| <= old(|source.data|) + SegmentRoom(conf)
    {
      hide Inv, EntryAddr, EncodeDir, Write, SetSlot, ItemAt, Contents, FreeSlot, FilledBehind, ValidSlot, EncodedLen,
        EmptySegment, TableExtended, ItemAdded, Refs, NamesIn, RoomMade, SameShape, NextSlot, SegmentRoom;
      var check := EnsureNoDuplicateName(name, parentDir);
      if check.Err? {
        return Err(check.error);
      }
      ghost var before := State();
      var entry := GetAddrForItemInsert(DirectoryType);
      ghost var st, s := State(), SlotOf(DirectoryType, entry);
      SlotParts(fileSegments, DirectoryType, entry);
      var id := nextId;
      nextId := nextId + 1;
      var dir := Directory(id, parentDir, name, modifTime);
      CreateDirStep(st, sha3, s, dir);
      CreateDirFrame(before, st, sha3, s, dir);

      WriteDirEntry(entry.entryAddr, dir);

      ListChild(DirItem(dir));
      dirsContent := dirsContent[NonRoot(dir.id) := EMPTY_CONTENT];

      FillDir(entry, dir);
      assert id !in dirs;
      dirs := dirs[id := dir];
      assert State() == AfterCreateDir(st, s, dir);
      SetSlotShape(st.segs, s, Some(DirItem(dir)));
      RoomStays(before, st.segs, fileSegments, conf, DirectoryType, coverage.segments, coverage.len);
      r := Ok(id);
    }

    /** Creates a file with the given content; fails, and changes nothing, in the same cases as `CreateDir`. */
    method CreateFile(parentDir: DirRef, name: Name, modifTime: U64, content: seq<Byte>)
      returns (r: Result<Id, ArchiveError>)
      requires Valid() && HasRoom(1, |content|)
      modifies this, source, coverage
      ensures Valid()
      ensures NameCheck(old(dirs), old(files), name, parentDir).Err? ==>
                r == Err(NameCheck(old(dirs), old(files), name, parentDir).error) && State() == old(State())
      ensures NameCheck(old(dirs), old(files), name, parentDir).Ok? ==>
                && r == Ok(old(nextId)) && nextId == old(nextId) + 1
                && dirs == old(dirs) && r.value in files
                && files == old(files)[r.value := File(r.value, parentDir, name, modifTime,
                                                       files[r.value].contentAddr, |content|, sha3(content))]
                && FileContents() == old(FileContents())[r.value := content]
                && ItemAdded(old(State()), State(), FileItem(files[r.value]))
                && ContentPlaced(old(State()), fileSegments, conf, |content|, files[r.value].contentAddr,
                                 coverage.segments, coverage.len)
      ensures |source.data| <= old(|source.data|) + SegmentRoom(conf) + |content|
    {
      hide Inv, Locates, ItemAt, Contents, FreeSlot, FilledBehind, EncodedLen, EmptySegment, TableExtended, ItemAdded,
        OneEntryWritten, Allotted, Refs, NamesIn, RoomMade, SameShape;
      var check := EnsureNoDuplicateName(name, parentDir);
      if check.Err? {
        return Err(check.error);
      }
      ghost var before := State();
      var entry := GetAddrForItemInsert(FileType);
      ghost var st, s := State(), SlotOf(FileType, entry);
      var id := FillFileEntry(entry, parentDir, name, modifTime, content);
      CreateFileFrame(before, st, State(), s, files[id]);
      RoomStays(before, st.segs, fileSegments, conf, FileType, st.used, st.len);
      r := Ok(id);
    }

    /** Writes the content of a new file, fills its slot and registers it. */
    method FillFileEntry(entry: SegmentEntry, parentDir: DirRef, name: Name, modifTime: U64, content: seq<Byte>)
      returns (id: Id)
      requires Valid() && Locates(fileSegments, FileType, entry)
      requires ItemAt(fileSegments, SlotOf(FileType, entry)).None?
      requires parentDir in dirsContent && name !in dirsContent[parentDir].names
      requires nextId + 1 < U64_LIMIT && |source.data| + |content| < U64_LIMIT
      modifies this, source, coverage
      ensures Valid()
      ensures id == old(nextId) && nextId == old(nextId) + 1
      ensures dirs == old(dirs) && id in files
      ensures files == old(files)[id := File(id, parentDir, name, modifTime,
                                             files[id].contentAddr, |content|, sha3(content))]
      ensures FileContents() == old(FileContents())[id := content]
      ensures OneEntryWritten(old(State()), State(), SlotOf(FileType, entry), []) && |fileSegments| == old(|fileSegments|)
      ensures ItemAt(fileSegments, SlotOf(FileType, entry)) == Some(FileItem(files[id]))
      ensures Allotted(old(coverage.segments), old(coverage.len), |content|, files[id].contentAddr,
                       coverage.segments, coverage.len)
      ensures SameShape(old(fileSegments), fileSegments)
      ensures |source.data| <= old(|source.data|) + |content|
    {
      hide Inv, EntryAddr, EncodeFile, Write, SetSlot, ItemAt, Contents, FreeSlot, ValidSlot, EncodedLen, EmptySegment,
        FreeZones, Ready, Within, DisjointFromAll, Marked, Insert, Remove, OneEntryWritten, Allotted,
        SameShape;
      ghost var st, s := State(), SlotOf(FileType, entry);
      SlotParts(fileSegments, FileType, entry);
      AllocatorReady(st, sha3);
      var contentSource := new Source(content);
      var contentLen := contentSource.SeekLen();
      var contentAddr, checksum := WriteDataWherePossible(contentSource);

      id := nextId;
      nextId := nextId + 1;
      var file := File(id, parentDir, name, modifTime, contentAddr, contentLen, checksum);
      NewFileStep(st, sha3, s, file, content);

      WriteFileEntry(entry.entryAddr, file);
      ListChild(FileItem(file));

      FillFile(entry, file);
      assert id !in files;
      files := files[id := file];
      assert State() == AfterCreateFile(st, s, file, content);
      SetSlotShape(st.segs, s, Some(FileItem(file)));
    }

    /** Gives a file a new content and time; its old zone is freed first, and may be used again at once. */
    method ReplaceFileContent(id: Id, newModifTime: U64, newContent: seq<Byte>) returns (r: Result<(), ArchiveError>)
      requires Valid() && HasRoom(0, |newContent|)
      modifies this`files, this`fileSegments, source, coverage
      ensures Valid()
      ensures id !in old(files) ==> r == Err(FileNotFound) && State() == old(State())
      ensures id in old(files) ==>
                && r.Ok? && id in files
                && files == old(files)[id := old(files)[id].(modifTime := newModifTime,
                                                             contentAddr := files[id].contentAddr,
                                                             contentLen := |newContent|,
                                                             checksum := sha3(newContent))]
                && FileContents() == old(FileContents())[id := newContent]
                && ItemRewritten(old(State()), State(), FileItem(old(files)[id]), FileItem(files[id]),
                                 [BlobExtent(old(files)[id])])
                && Allotted(FreedFor(old(State()), id), old(coverage.len), |newContent|, files[id].contentAddr,
                            coverage.segments, coverage.len)
      ensures |source.data| <= old(|source.data|) + |newContent|
    {
      hide Inv, EntryAddr, EncodeFile, Write, SetSlot, ItemAt, Contents, FreeSlot, ValidSlot, EncodedLen, EmptySegment,
        FreeZones, Ready, Within, DisjointFromAll, Marked, Insert, Remove, ItemRewritten, Allotted, FreedFor;
      var entry := GetItemEntry(FileId(id));
      if entry.None? {
        return Err(FileNotFound);
      }
      var e := entry.value;
      ghost var st, s := State(), SlotOf(FileType, e);
      SlotParts(fileSegments, FileType, e);
      LiveFile(st, sha3, id);

      var contentSource := new Source(newContent);
      var file := files[id];
      var contentLen := contentSource.SeekLen();
      var _ := coverage.MarkAsFree(Extent(file.contentAddr, file.contentLen));
      FreedIs(st, id);
      FreedReady(st, sha3, id);
      var contentAddr, checksum := WriteDataWherePossible(contentSource);

      var newFile := files[id];
      newFile := newFile.(contentAddr := contentAddr);
      newFile := newFile.(contentLen := contentLen);
      newFile := newFile.(checksum := checksum);
      newFile := newFile.(modifTime := newModifTime);
      files := files[id := newFile];
      ReplaceFileStep(st, sha3, s, newFile, newContent);
      ReplaceFileFrame(st, sha3, s, newFile, newContent);

      WriteFileEntry(e.entryAddr, newFile);

      FillFile(e, newFile);
      assert State() == AfterStoreFile(st, s, newFile, newContent);
      r := Ok(());
    }

    /** Overwrites the name field of an entry. */
    method WriteName(entryAddr: nat, name: Name)
      modifies source
      ensures source.data == Write(old(source.data), entryAddr + NAME_OFFSET_IN_ENTRY, EncodeName(name))
    {
      source.SetPosition(entryAddr + NAME_OFFSET_IN_ENTRY);
      var field := FillNameField(name);
      source.WriteAll(field[..]);
    }

    /** Renames a directory; only its name field is written. */
    method RenameDirectory(id: Id, newName: Name) returns (r: Result<(), ArchiveError>)
      requires Valid()
      modifies this`dirs, this`fileSegments, this`dirsContent, source
      ensures Valid()
      ensures id !in old(dirs) ==> r == Err(DirectoryNotFound)
      ensures id in old(dirs) ==> r == NameCheck(old(dirs), old(files), newName, old(dirs)[id].parentDir)
      ensures r.Err? ==> State() == old(State())
      ensures r.Ok? ==> dirs == old(dirs)[id := old(dirs)[id].(name := newName)]
                        && ItemRenamed(old(State()), State(), DirItem(old(dirs)[id]), DirItem(dirs[id]))
      ensures FileContents() == old(FileContents())
      ensures |source.data| == old(|source.data|)
    {
      hide Inv, EntryAddr, EncodeName, Write, SetSlot, ItemAt, Contents, ValidSlot, ItemRenamed, Refs, NamesIn;
      var entry := GetItemEntry(DirId(id));
      if entry.None? {
        return Err(DirectoryNotFound);
      }
      var e := entry.value;
      ghost var st, s := State(), SlotOf(DirectoryType, e);
      SlotParts(fileSegments, DirectoryType, e);
      LiveDir(st, sha3, id);

      var dir := dirs[id];
      var parentDir := dir.parentDir;
      var oldName := dir.name;
      var check := EnsureNoDuplicateName(newName, parentDir);
      if check.Err? {
        return Err(check.error);
      }
      RenameStep(st, sha3, s, DirItem(dir), newName);
      RenameFrame(st, sha3, s, DirItem(dir), newName);

      WriteName(e.entryAddr, newName);

      var slot := fileSegments[e.segmentIndex].dirs[e.entryIndex];
      DirInSlot(fileSegments, e.segmentIndex, e.entryIndex, dir);
      FillDir(e, slot.value.(name := newName));
      dirs := dirs[id := dirs[id].(name := newName)];

      RelistName(parentDir, oldName, newName);
      assert State() == AfterRename(st, s, DirItem(dir), newName);
      r := Ok(());
    }

    /** Renames a file; only its name field is written. */
    method RenameFile(id: Id, newName: Name) returns (r: Result<(), ArchiveError>)
      requires Valid()
      modifies this`files, this`fileSegments, this`dirsContent, source
      ensures Valid()
      ensures id !in old(files) ==> r == Err(FileNotFound)
      ensures id in old(files) ==> r == NameCheck(old(dirs), old(files), newName, old(files)[id].parentDir)
      ensures r.Err? ==> State() == old(State())
      ensures r.Ok? ==> files == old(files)[id := old(files)[id].(name := newName)]
                        && ItemRenamed(old(State()), State(), FileItem(old(files)[id]), FileItem(files[id]))
      ensures FileContents() == old(FileContents())
      ensures |source.data| == old(|source.data|)
    {
      hide Inv, EntryAddr, EncodeName, Write, SetSlot, ItemAt, Contents, ValidSlot, ItemRenamed, Refs, NamesIn;
      var entry := GetItemEntry(FileId(id));
      if entry.None? {
        return Err(FileNotFound);
      }
      var e := entry.value;
      ghost var st, s := State(), SlotOf(FileType, e);
      SlotParts(fileSegments, FileType, e);
      LiveFile(st, sha3, id);

      var file := files[id];
      var parentDir := file.parentDir;
      var oldName := file.name;
      var check := EnsureNoDuplicateName(newName, parentDir);
      if check.Err? {
        return Err(check.error);
      }
      RenameStep(st, sha3, s, FileItem(file), newName);
      RenameFrame(st, sha3, s, FileItem(file), newName);

      WriteName(e.entryAddr, newName);

      var slot := fileSegments[e.segmentIndex].files[e.entryIndex];
      FileInSlot(fileSegments, e.segmentIndex, e.entryIndex, file);
      FillFile(e, slot.value.(name := newName));
      files := files[id := files[id].(name := newName)];

      RelistName(parentDir, oldName, newName);
      assert State() == AfterRename(st, s, FileItem(file), newName);
      r := Ok(());
    }

    /** Removes a file: its slot is zeroed, and its zone is free again. */
    method RemoveFile(id: Id) returns (r: Result<File, ArchiveError>)
      requires Valid()
      modifies this`files, this`fileSegments, this`dirsContent, source, coverage
      ensures Valid()
      ensures id !in old(files) ==> r == Err(FileNotFound) && State() == old(State())
      ensures id in old(files) ==>
                && r == Ok(old(files)[id]) && files == old(files) - {id}
                && FileContents() == old(FileContents()) - {id}
                && ItemCleared(old(State()), State(), FileItem(old(files)[id]))
      ensures Shrunk(old(State()), State())
    {
      hide Inv, EntryAddr, Zeros, Write, SetSlot, Contents, ValidSlot, Remove, Shrunk, ItemAt, ItemCleared;
      var entry := GetItemEntry(FileId(id));
      if entry.None? {
        ShrunkNothing(State(), sha3);
        return Err(FileNotFound);
      }
      var e := entry.value;
      ghost var st, s := State(), SlotOf(FileType, e);
      SlotParts(fileSegments, FileType, e);
      LiveFile(st, sha3, id);
      RemoveFileKeepsInv(st, sha3, s, files[id]);
      RemoveFileFrame(st, sha3, s, files[id]);

      source.SetPosition(e.entryAddr);
      source.WriteAll(Zeros(FILE_ENTRY_SIZE));

      EmptyFileSlot(fileSegments, e.segmentIndex, e.entryIndex);
      fileSegments := fileSegments[e.segmentIndex := fileSegments[e.segmentIndex].(
        files := fileSegments[e.segmentIndex].files[e.entryIndex := None])];

      var file := files[id];
      files := files - {id};

      UnlistChild(FileItem(file));

      var _ := coverage.MarkAsFree(Extent(file.contentAddr, file.contentLen));
      assert State() == AfterRemoveFile(st, s, file);
      RemoveFileShrinks(st, sha3, s, file);
      r := Ok(file);
    }

    /** Removes a directory and, first, everything below it. */
    method RemoveDir(id: Id) returns (r: Result<Directory, ArchiveError>)
      requires Valid()
      modifies this`dirs, this`files, this`fileSegments, this`dirsContent, source, coverage
      ensures Valid()
      ensures id !in old(dirs) ==> r == Err(DirectoryNotFound) && State() == old(State())
      ensures id in old(dirs) ==> r == Ok(old(dirs)[id]) && PrunedBy(old(State()), State(), [id])
      ensures Shrunk(old(State()), State())
      decreases nextId - id, 1
    {
      hide Inv, EntryAddr, ValidSlot, Shrunk, ItemAt, PrunedBy, Survives, IsUnder, SameShape, ChildrenOf, DirsIn, FilesIn,
        Locates;
      var entry := GetItemEntry(DirId(id));
      if entry.None? {
        ShrunkNothing(State(), sha3);
        return Err(DirectoryNotFound);
      }
      var e := entry.value;
      ghost var st := State();
      LiveDir(st, sha3, id);
      ChildrenListed(st, sha3, id);

      var subDirs, subFiles := [], [];
      if NonRoot(id) in dirsContent {
        subDirs := ListOf(dirsContent[NonRoot(id)].dirs);
        subFiles := ListOf(dirsContent[NonRoot(id)].files);
      }
      RemoveSubDirs(id, subDirs);
      ghost var st1 := State();
      FamilyLeft(st, st1, sha3, id, subDirs);
      RemoveSubFiles(subFiles);
      ShrunkTwice(st, st1, State());
      r := RemoveEmptyDir(id, e, st, st1, subDirs, subFiles);
    }

    /** Removes the directories that a directory lists, one after the other. */
    method RemoveSubDirs(id: Id, subDirs: seq<Id>)
      requires Valid() && id in dirs
      requires forall d :: d in subDirs <==> d in DirsIn(dirs, NonRoot(id))
      requires Distinct(subDirs)
      modifies this`dirs, this`files, this`fileSegments, this`dirsContent, source, coverage
      ensures Valid() && Shrunk(old(State()), State()) && PrunedBy(old(State()), State(), subDirs)
      decreases nextId - id, 0
    {
      hide Inv, Shrunk, PrunedBy, Survives, IsUnder, DirsIn;
      ghost var st := State();
      ShrunkNothing(st, sha3);
      assert subDirs[..0] == [];
      for i := 0 to |subDirs|
        invariant Valid() && nextId == st.nextId
        invariant Shrunk(st, State()) && PrunedBy(st, State(), subDirs[..i])
      {
        ghost var st1 := State();
        NextSubDir(st, st1, sha3, id, subDirs, i);
        var _ := RemoveDir(subDirs[i]);
        PruneMore(st, st1, State(), sha3, subDirs[..i], subDirs[i]);
        ShrunkTwice(st, st1, State());
        assert subDirs[..i] + [subDirs[i]] == subDirs[..i + 1];
      }
      assert subDirs[..|subDirs|] == subDirs;
    }

    /** Removes some files, one after the other. */
    method RemoveSubFiles(subFiles: seq<Id>)
      requires Valid() && Distinct(subFiles) && forall f :: f in subFiles ==> f in files
      modifies this`files, this`fileSegments, this`dirsContent, source, coverage
      ensures Valid() && Shrunk(old(State()), State())
      ensures forall f :: f in files <==> f in old(files) && f !in subFiles
    {
      hide Inv, Shrunk, PrunedBy;
      ghost var st := State();
      ShrunkNothing(st, sha3);
      for i := 0 to |subFiles|
        invariant Valid() && Shrunk(st, State())
        invariant forall f :: f in files <==> f in st.files && f !in subFiles[..i]
      {
        ghost var st1 := State();
        var _ := RemoveFile(subFiles[i]);
        ShrunkTwice(st, st1, State());
        assert subFiles[..i + 1] == subFiles[..i] + [subFiles[i]];
      }
      assert subFiles[..|subFiles|] == subFiles;
    }

    /** Removes the entry of a directory whose content is gone; the address of its entry is still the one found before. */
    method RemoveEmptyDir(id: Id, e: SegmentEntry, ghost st: State, ghost st1: State,
                          subDirs: seq<Id>, subFiles: seq<Id>) returns (r: Result<Directory, ArchiveError>)
      requires Valid() && Inv(st, sha3) && id in st.dirs
      requires Locates(st.segs, DirectoryType, e) && ItemAt(st.segs, SlotOf(DirectoryType, e)) == Some(DirItem(st.dirs[id]))
      requires Shrunk(st, State()) && PrunedBy(st, st1, subDirs) && dirs == st1.dirs && id in dirs
      requires forall d :: d in subDirs <==> d in DirsIn(st.dirs, NonRoot(id))
      requires forall f :: f in subFiles <==> f in FilesIn(st.files, NonRoot(id))
      requires forall f :: f in files <==> f in st1.files && f !in subFiles
      modifies this`dirs, this`fileSegments, this`dirsContent, source
      ensures Valid() && r == Ok(st.dirs[id])
      ensures Shrunk(st, State()) && PrunedBy(st, State(), [id])
    {
      hide Inv, EntryAddr, Zeros, Write, SetSlot, Contents, ValidSlot, Shrunk, ItemAt, PrunedBy, Survives, IsUnder,
        SameShape, ChildrenOf, DirsIn, FilesIn;
      ghost var st2, s := State(), SlotOf(DirectoryType, e);
      StillInSlot(st, st2, sha3, s, id);
      SlotParts(fileSegments, DirectoryType, e);
      ListingGone(st, st1, st2, id, subDirs, subFiles);
      RemoveDirStep(st2, sha3, s, st.dirs[id]);

      source.SetPosition(e.entryAddr);
      source.WriteAll(Zeros(DIRECTORY_ENTRY_SIZE));

      EmptyDirectorySlot(fileSegments, e.segmentIndex, e.entryIndex);
      fileSegments := fileSegments[e.segmentIndex := fileSegments[e.segmentIndex].(
        dirs := fileSegments[e.segmentIndex].dirs[e.entryIndex := None])];

      var dir := dirs[id];
      dirs := dirs - {id};
      UnlistChild(DirItem(dir));

      var content := dirsContent[NonRoot(dir.id)];
      dirsContent := dirsContent - {NonRoot(dir.id)};
      assert content.dirs == {};
      assert content.files == {};
      assert content.names == {};
      assert State() == AfterRemoveDir(st2, s, dir);
      RemoveDirShrinks(st2, sha3, s, dir);
      ShrunkTwice(st, st2, State());
      PruneTop(st, st1, State(), sha3, id, subDirs, subFiles);
      r := Ok(dir);
    }
  }

  lemma OwnIdentifiers(st: State, sha3: Hash)
    requires Inv(st, sha3)
    ensures forall id :: id in st.dirs ==> st.dirs[id].id == id
    ensures forall id :: id in st.files ==> st.files[id].id == id
  {
    hide Inv, Group, ChildrenOf, Refs;
    ContentIs(st, sha3);
    assert forall id :: id in st.dirs ==> Lookup(st.dirs, st.files, DirId(id)).Some?;
    assert forall id :: id in st.files ==> Lookup(st.dirs, st.files, FileId(id)).Some?;
  }

  /** The items that a directory lists, in the order of the two lists. */
  lemma ListedItems(st: State, sha3: Hash, ref: DirRef, dirIds: seq<Id>, fileIds: seq<Id>)
    requires Inv(st, sha3) && ref in st.content && Distinct(dirIds) && Distinct(fileIds)
    requires forall id :: id in dirIds <==> id in st.content[ref].dirs
    requires forall id :: id in fileIds <==> id in st.content[ref].files
    ensures (forall id :: id in dirIds ==> id in st.dirs) && (forall id :: id in fileIds ==> id in st.files)
    ensures var items := DirItems(st.dirs, dirIds) + FileItems(st.files, fileIds);
            && (forall item :: item in items <==>
                  Lookup(st.dirs, st.files, item.Id()) == Some(item) && item.Parent() == ref)
            && Distinct(items)
            && (forall i, j :: 0 <= i < j < |items| && items[j].DirItem? ==> items[i].DirItem?)
  {
    hide Inv, NamesIn, Group, TreeOk, Refs, DirItems, FileItems, Distinct;
    ContentIs(st, sha3);
    OwnIdentifiers(st, sha3);
    assert forall id :: id in dirIds <==> id in DirsIn(st.dirs, ref);
    assert forall id :: id in fileIds <==> id in FilesIn(st.files, ref);
    ItemsOfLists(st.dirs, st.files, ref, dirIds, fileIds);
    ItemsOnce(st.dirs, st.files, dirIds, fileIds);
  }

  lemma ItemsOfLists(dirs: Dirs, files: Files, ref: DirRef, dirIds: seq<Id>, fileIds: seq<Id>)
    requires forall id :: id in dirIds <==> id in DirsIn(dirs, ref)
    requires forall id :: id in fileIds <==> id in FilesIn(files, ref)
    requires (forall id :: id in dirs ==> dirs[id].id == id) && (forall id :: id in files ==> files[id].id == id)
    ensures forall item :: item in DirItems(dirs, dirIds) + FileItems(files, fileIds) <==>
              Lookup(dirs, files, item.Id()) == Some(item) && item.Parent() == ref
  {
    var items := DirItems(dirs, dirIds) + FileItems(files, fileIds);
    forall item: Item | item in items
      ensures Lookup(dirs, files, item.Id()) == Some(item) && item.Parent() == ref
    {
      var i :| 0 <= i < |items| && items[i] == item;
      assert if i < |dirIds| then dirIds[i] in dirIds else fileIds[i - |dirIds|] in fileIds;
    }
    forall item: Item | Lookup(dirs, files, item.Id()) == Some(item) && item.Parent() == ref
      ensures item in items
    {
      if item.DirItem? {
        assert item.dir.id in DirsIn(dirs, ref);
        var i :| 0 <= i < |dirIds| && dirIds[i] == item.dir.id;
        assert items[i] == item;
      } else {
        assert item.file.id in FilesIn(files, ref);
        var i :| 0 <= i < |fileIds| && fileIds[i] == item.file.id;
        assert items[|dirIds| + i] == item;
      }
    }
  }

  lemma ItemsOnce(dirs: Dirs, files: Files, dirIds: seq<Id>, fileIds: seq<Id>)
    requires Distinct(dirIds) && forall id :: id in dirIds ==> id in dirs
    requires Distinct(fileIds) && forall id :: id in fileIds ==> id in files
    requires (forall id :: id in dirs ==> dirs[id].id == id) && (forall id :: id in files ==> files[id].id == id)
    ensures var items := DirItems(dirs, dirIds) + FileItems(files, fileIds);
            && Distinct(items)
            && (forall i, j :: 0 <= i < j < |items| && items[j].DirItem? ==> items[i].DirItem?)
  {
    var dirItems, fileItems := DirItems(dirs, dirIds), FileItems(files, fileIds);
    assert forall i :: 0 <= i < |dirIds| ==> dirIds[i] in dirIds && dirItems[i].dir.id == dirIds[i];
    assert forall i :: 0 <= i < |fileIds| ==> fileIds[i] in fileIds && fileItems[i].file.id == fileIds[i];
    DistinctConcat(dirItems, fileItems);
  }

  /** Reading a live file of a valid archive to its end gives its content. */
  lemma StoredContentReads(st: State, sha3: Hash, id: Id)
    requires Inv(st, sha3) && id in st.files
    ensures var file := st.files[id];
            RestOfFile(st.disk, file.contentAddr, file.contentLen, 0, file.checksum, sha3) ==
            Ok(Contents(st.disk, st.files)[id])
  {
    hide Inv, TableShape, OnDisk, SlotsMatch, TreeOk, Group, Tracks;
    InvParts(st, sha3);
    assert ExtentOf(st.segs, st.files, BlobOwner(id)) == BlobExtent(st.files[id]);
  }

  /** Follows the next pointers from the first segment on. */
  method ReadChain(source: Source) returns (r: Result<Table, SegmentDecodingError>)
    requires source.pos == HEADER_SIZE && exists fuel: nat :: WalkChain(source.data, HEADER_SIZE, fuel).Some?
    modifies source`pos
    ensures forall fuel: nat :: WalkChain(source.data, HEADER_SIZE, fuel).Some? ==>
              WalkChain(source.data, HEADER_SIZE, fuel) == Some(r)
  {
    hide DecodeSegment;
    ghost var data := source.data;
    ghost var fuel: nat :| WalkChain(data, HEADER_SIZE, fuel).Some?;
    ghost var result := WalkChain(data, HEADER_SIZE, fuel).value;
    AllWalksAgree(data, fuel);
    var addr: nat := HEADER_SIZE;
    var addrs: seq<nat>, segs: Segs := [addr], [];
    ghost var met: seq<nat> := [];
    ghost var left: nat := fuel;
    var decoded := Segments.Decode(source);
    if decoded.Err? {
      return Err(decoded.error);
    }
    var prev := decoded.value;
    BehindNothing(WalkChain(data, HEADER_SIZE, fuel));
    while prev.nextSegmentAddr.Some?
      invariant addrs == met + [addr] && DecodeSegment(data, addr) == Ok(prev)
      invariant WalkChain(data, addr, left).Some?
      invariant Some(result) == Behind(Table(met, segs), WalkChain(data, addr, left))
      decreases left
    {
      var next := prev.nextSegmentAddr.value;
      BehindNext(met, segs, addr, prev, WalkChain(data, next, left - 1));
      met, addr := addrs, next;
      source.SetPosition(addr);
      decoded := Segments.Decode(source);
      if decoded.Err? {
        return Err(decoded.error);
      }
      segs := segs + [prev];
      addrs := addrs + [addr];
      prev := decoded.value;
      left := left - 1;
    }
    segs := segs + [prev];
    r := Ok(Table(addrs, segs));
  }

  /** The result of a walk, with the segments that were met before put in front. */
  function Behind(front: Table, rest: Option<Result<Table, SegmentDecodingError>>)
    : Option<Result<Table, SegmentDecodingError>>
  {
    match rest
    case None => None
    case Some(Err(error)) => Some(Err(error))
    case Some(Ok(t)) => Some(Ok(Table(front.addrs + t.addrs, front.segs + t.segs)))
  }

  lemma BehindNothing(rest: Option<Result<Table, SegmentDecodingError>>)
    ensures Behind(Table([], []), rest) == rest
  {
    if rest.Some? && rest.value.Ok? {
      var t := rest.value.value;
      assert [] + t.addrs == t.addrs && [] + t.segs == t.segs;
    }
  }

  lemma BehindNext(addrs: seq<nat>, segs: Segs, addr: nat, segment: FileTableSegment,
                   rest: Option<Result<Table, SegmentDecodingError>>)
    ensures var one := match rest
                       case None => None
                       case Some(Err(error)) => Some(Err(error))
                       case Some(Ok(t)) => Some(Ok(Linked(addr, segment, t)));
            Behind(Table(addrs, segs), one) == Behind(Table(addrs + [addr], segs + [segment]), rest)
  {
    if rest.Some? && rest.value.Ok? {
      var t := rest.value.value;
      assert addrs + ([addr] + t.addrs) == (addrs + [addr]) + t.addrs;
      assert segs + ([segment] + t.segs) == (segs + [segment]) + t.segs;
    }
  }

  lemma AllWalksAgree(data: seq<Byte>, fuel: nat)
    requires WalkChain(data, HEADER_SIZE, fuel).Some?
    ensures forall other: nat :: WalkChain(data, HEADER_SIZE, other).Some? ==>
              WalkChain(data, HEADER_SIZE, other) == WalkChain(data, HEADER_SIZE, fuel)
  {
    hide WalkChain;
    forall other: nat | WalkChain(data, HEADER_SIZE, other).Some?
      ensures WalkChain(data, HEADER_SIZE, other) == WalkChain(data, HEADER_SIZE, fuel)
    {
      WalkChainStable(data, HEADER_SIZE, if other <= fuel then other else fuel, if other <= fuel then fuel else other);
    }
  }

  lemma ScannableTable(t: Table)
    requires Scannable(t)
    ensures |t.addrs| == |t.segs| && MarkAll([], AllZones(t.addrs, t.segs)).Some?
  {
  }

  lemma NextChunk(disk: seq<Byte>, addr: nat, bytes: seq<Byte>, done: nat, count: nat)
    requires addr <= |disk| && done + count <= |bytes|
    ensures Write(Write(disk, addr, bytes[..done]), addr + done, bytes[done..done + count]) ==
            Write(disk, addr, bytes[..done + count])
    ensures bytes[..done] + bytes[done..done + count] == bytes[..done + count]
  {
    hide Write;
    assert bytes[..done] + bytes[done..done + count] == bytes[..done + count];
    WriteTwice(disk, addr, bytes[..done], bytes[done..done + count]);
  }

  /** Copies `len` bytes in chunks, and returns what has been fed to the digest on the way. */
  method CopyChunks(data: Source, source: Source, len: nat) returns (hashed: seq<Byte>)
    requires data != source && data.pos == 0 && len == |data.data| && source.pos <= |source.data|
    modifies data`pos, source
    ensures source.data == Write(old(source.data), old(source.pos), data.data)
    ensures hashed == data.data
  {
    hide Write;
    ghost var disk, addr := source.data, source.pos;
    WriteNothing(disk, addr);
    hashed := [];
    var written := 0;
    while written < len
      invariant written <= len
      invariant data.pos == written && source.pos == addr + written
      invariant source.data == Write(disk, addr, data.data[..written])
      invariant hashed == data.data[..written]
    {
      var count := if CHUNK_SIZE < len - written then CHUNK_SIZE else len - written;
      var chunk := data.ReadExact(count);
      source.WriteAll(chunk.value);
      NextChunk(disk, addr, data.data, written, count);
      written := written + count;
      hashed := hashed + chunk.value;
    }
    assert data.data[..len] == data.data;
  }

  /** The chosen address is in the archive, free, and, unless the archive grows, so is all the space that is needed. */
  lemma PlaceIsFree(used: seq<Extent>, size: nat, zone: Option<Extent>, addr: nat, len: nat)
    requires Ready(used, 0) && Within(used, size)
    requires IsBestFit(FreeZones(used, 0, size), len, zone)
    requires zone.Some? ==> addr == zone.value.start
    requires zone.None? ==> addr == if used == [] then 0 else used[|used| - 1].End()
    ensures addr <= size && DisjointFromAll(Extent(addr, len), used)
    ensures MarkingAllowed(used, addr, len)
    ensures zone.Some? ==> addr + len <= size
    ensures zone.None? ==> forall free :: free in FreeZones(used, 0, size) ==> free.len < len
  {
    if zone.Some? {
      FreeZonesDisjoint(used, size, zone.value);
      forall i | 0 <= i < |used|
        ensures Disjoint(Extent(addr, len), used[i])
      {
        assert Disjoint(zone.value, used[i]);
      }
    }
    if len > 0 {
      MarkingAllowedIffDisjoint(used, addr, len);
    }
  }

  /** Scanning a table without files finds its header and its only segment. */
  lemma FirstScan(segment: FileTableSegment)
    requires EmptySlots(segment)
    ensures MarkAll([], AllZones([HEADER_SIZE], [segment])) ==
            Some([Extent(0, HEADER_SIZE), Extent(HEADER_SIZE, EncodedLen(segment))])
  {
    NothingFilled(segment.files);
    var zones := [Extent(0, HEADER_SIZE), Extent(HEADER_SIZE, EncodedLen(segment))];
    var addrs: seq<nat>, segs := [HEADER_SIZE], [segment];
    assert addrs[1..] == [] && segs[1..] == [];
    assert TableZones(addrs, segs) == [zones[1]] + BlobZones([]) + TableZones([], []);
    assert AllZones(addrs, segs) == zones;
    MarkAllDisjoint([], zones);
    PackedUnique(MarkAll([], zones).value, zones);
  }

  lemma {:induction false} NothingFilled<T>(slots: seq<Option<T>>)
    requires forall j :: 0 <= j < |slots| ==> slots[j].None?
    ensures Filled(slots) == []
  {
    if slots != [] {
      NothingFilled(slots[1..]);
    }
  }

  // -- Searching slots ---------------------------------------------------------------------------

  /** The first slot whose item is wanted. */
  method Position<T>(slots: seq<Option<T>>, wanted: T -> bool) returns (index: Option<nat>)
    ensures index.Some? ==> index.value < |slots| && slots[index.value].Some? && wanted(slots[index.value].value)
    ensures forall j :: 0 <= j < (if index.Some? then index.value else |slots|) ==>
              slots[j].None? || !wanted(slots[j].value)
  {
    for i := 0 to |slots|
      invariant forall j :: 0 <= j < i ==> slots[j].None? || !wanted(slots[j].value)
    {
      if slots[i].Some? && wanted(slots[i].value) {
        return Some(i);
      }
    }
    index := None;
  }

  /** The position of an item among the slots of a segment. */
  method ItemPosition(segment: FileTableSegment, k: ItemId) returns (index: Option<nat>)
    ensures index.Some? ==> SlotIdIs(segment, k, index.value)
    ensures index.None? ==> forall j :: !SlotIdIs(segment, k, j)
  {
    if k.DirId? {
      index := Position(segment.dirs, (dir: Directory) => dir.id == k.n);
    } else {
      index := Position(segment.files, (file: File) => file.id == k.n);
    }
  }

  predicate SlotIdIs(segment: FileTableSegment, k: ItemId, j: nat) {
    match k
    case DirId(id) => j < |segment.dirs| && segment.dirs[j].Some? && segment.dirs[j].value.id == id
    case FileId(id) => j < |segment.files| && segment.files[j].Some? && segment.files[j].value.id == id
  }

  lemma NotInSegment(segs: Segs, k: ItemId, i: nat)
    requires i < |segs| && NotBefore(segs, k, i) && forall j :: !SlotIdIs(segs[i], k, j)
    ensures NotBefore(segs, k, i + 1)
  {
    forall s | Holds(segs, s, k)
      ensures s.seg > i
    {
      assert s.seg == i ==> !SlotIdIs(segs[i], k, s.idx);
    }
  }

  /** The last empty slot. */
  method LastEmpty<T>(slots: seq<Option<T>>) returns (index: Option<nat>)
    ensures index.Some? ==> index.value < |slots| && slots[index.value].None?
    ensures forall j :: (if index.Some? then index.value + 1 else 0) <= j < |slots| ==> slots[j].Some?
  {
    var i := |slots|;
    while i > 0
      invariant 0 <= i <= |slots|
      invariant forall j :: i <= j < |slots| ==> slots[j].Some?
    {
      i := i - 1;
      if slots[i].None? {
        return Some(i);
      }
    }
    index := None;
  }

  /** The item is in none of the first `i` segments. */
  ghost predicate NotBefore(segs: Segs, k: ItemId, i: nat) {
    forall s :: Holds(segs, s, k) ==> s.seg >= i
  }

  ghost predicate Holds(segs: Segs, s: Slot, k: ItemId) {
    ItemAt(segs, s).Some? && ItemAt(segs, s).value.Id() == k
  }

  /** There is a slot of the kind: the table is as before, or has one segment more, which has got the best place. */
  ghost predicate RoomMade(st: State, segs': Segs, conf: ArchiveConfig, itemType: ItemType, used': seq<Extent>, size': nat) {
    var n := |st.segs|;
    if FreeSlot(st.segs, itemType) then
      |segs'| == n && used' == st.used && size' == st.len
    else
      && |segs'| == n + 1
      && |segs'[n].dirs| == conf.defaultDirsCapacity && |segs'[n].files| == conf.defaultFilesCapacity
      && Allotted(st.used, st.len, SegmentRoom(conf), SegmentAddr(segs', n), used', size')
  }

  /** The content of a new file has got the best place, once there was a slot for the file. */
  ghost predicate ContentPlaced(st: State, segs': Segs, conf: ArchiveConfig, len: nat, addr: nat,
                                used': seq<Extent>, size': nat) {
    exists used, size :: RoomMade(st, segs', conf, FileType, used, size) && Allotted(used, size, len, addr, used', size')
  }

  lemma LinkedAddr(segs: Segs, addr: U64, segment: FileTableSegment)
    requires |segs| > 0
    ensures SegmentAddr(Extended(segs, addr, segment), |segs|) == addr
  {
  }

  lemma SetSlotShape(segs: Segs, s: Slot, v: Option<Item>)
    requires ValidSlot(segs, s) && Fits(s, v)
    ensures SameShape(segs, SetSlot(segs, s, v))
  {
  }

  lemma RoomStays(st: State, segs': Segs, segs2: Segs, conf: ArchiveConfig, itemType: ItemType, used': seq<Extent>,
                  size': nat)
    requires RoomMade(st, segs', conf, itemType, used', size') && SameShape(segs', segs2)
    ensures RoomMade(st, segs2, conf, itemType, used', size')
  {
    hide FreeSlot, Allotted, SegmentRoom;
  }

  /** The last free slot that is found is the one for the next item. */
  lemma FreeIsNext(segs: Segs, itemType: ItemType, entry: SegmentEntry)
    requires ValidSlot(segs, SlotOf(itemType, entry)) && ItemAt(segs, SlotOf(itemType, entry)).None?
    requires FilledBehind(segs, itemType, entry)
    ensures NextSlot(segs, SlotOf(itemType, entry))
  {
    assert LastFree(segs, SlotOf(itemType, entry));
  }

  lemma NewIsNext(segs: Segs, itemType: ItemType)
    requires !FreeSlot(segs, itemType)
    ensures forall addr :: NextSlot(segs, SlotOf(itemType, SegmentEntry(|segs|, 0, addr)))
  {
  }

  ghost predicate FreeSlot(segs: Segs, itemType: ItemType) {
    exists n :: 0 <= n < |segs| && !AllFilled(segs[n], itemType)
  }

  /** No slot of the kind is free behind this one. */
  ghost predicate FilledBehind(segs: Segs, itemType: ItemType, entry: SegmentEntry) {
    && (forall n :: entry.segmentIndex < n < |segs| ==> AllFilled(segs[n], itemType))
    && (entry.segmentIndex < |segs| ==>
          match itemType
          case DirectoryType =>
            forall j :: entry.entryIndex < j < |segs[entry.segmentIndex].dirs| ==> segs[entry.segmentIndex].dirs[j].Some?
          case FileType =>
            forall j :: entry.entryIndex < j < |segs[entry.segmentIndex].files| ==> segs[entry.segmentIndex].files[j].Some?)
  }

  ghost predicate AllFilled(segment: FileTableSegment, itemType: ItemType) {
    match itemType
    case DirectoryType => forall j :: 0 <= j < |segment.dirs| ==> segment.dirs[j].Some?
    case FileType => forall j :: 0 <= j < |segment.files| ==> segment.files[j].Some?
  }

  lemma NewSlotIsFree(segs: Segs, n: nat, itemType: ItemType)
    requires n < |segs| && EmptySlots(segs[n]) && |segs[n].dirs| > 0 && |segs[n].files| > 0
    ensures ValidSlot(segs, SlotOf(itemType, SegmentEntry(n, 0, 0)))
    ensures forall addr :: ItemAt(segs, SlotOf(itemType, SegmentEntry(n, 0, addr))).None?
  {
  }

  lemma SegmentStored(st: State, sha3: Hash, i: nat)
    requires i < |st.segs|
    ensures Inv(st, sha3) ==> At(st.disk, SegmentAddr(st.segs, i), EncodeSegment(st.segs[i]))
  {
    hide TableShape, SlotsMatch, TreeOk, Group, Layout, Tracks, DigestsMatch, EncodeSegment, EncodeHeader;
  }

  lemma TableOf(st: State, sha3: Hash)
    requires Inv(st, sha3)
    ensures TableShape(st.segs) && |st.segs| > 0
  {
    InvParts(st, sha3);
  }

  lemma FoundEntry(st: State, sha3: Hash, s: Slot, k: ItemId)
    requires Inv(st, sha3) && Holds(st.segs, s, k)
    ensures ItemAt(st.segs, s) == Lookup(st.dirs, st.files, k)
  {
    InvParts(st, sha3);
  }

  lemma AbsentItem(st: State, sha3: Hash, k: ItemId)
    requires Inv(st, sha3) && NotBefore(st.segs, k, |st.segs|)
    ensures Lookup(st.dirs, st.files, k).None?
  {
    InvParts(st, sha3);
    hide Inv, Lookup;
    var item := Lookup(st.dirs, st.files, k);
    assert item.Some? ==> Stored(st.segs, item.value, k);
    assert forall s :: ItemAt(st.segs, s).Some? ==> !Holds(st.segs, s, k);
  }

  /** What a segment that is written to a free zone and linked makes of a valid archive. */
  lemma SegmentAdded(st: State, sha3: Hash, addr: nat, segment: FileTableSegment)
    requires Inv(st, sha3) && |st.segs| > 0 && segment.nextSegmentAddr.None? && EmptySlots(segment)
    requires addr <= |st.disk| && |Write(st.disk, addr, EncodeSegment(segment))| < U64_LIMIT
    requires DisjointFromAll(Extent(addr, EncodedLen(segment)), st.used)
    ensures var st' := WithSegment(st, addr, segment);
            && Inv(st', sha3) && Contents(st'.disk, st'.files) == Contents(st.disk, st.files)
            && |st'.disk| <= |st.disk| + EncodedLen(segment)
            && TableExtended(st, st')
  {
    hide Inv, EncodeSegment, Write, Contents, TableExtended, Marked, TableShape, SegmentAddr;
    EncodedSize(segment);
    AllocatorReady(st, sha3);
    TableOf(st, sha3);
    WriteSize(st.disk, addr, EncodeSegment(segment));
    SegmentStep(st, sha3, addr, segment);
    LastPointerOnDisk(st, sha3);
    ExtensionFrame(st, addr, segment);
  }

  lemma LastPointerOnDisk(st: State, sha3: Hash)
    requires Inv(st, sha3) && |st.segs| > 0
    ensures SegmentAddr(st.segs, |st.segs| - 1) + 8 <= |st.disk|
  {
    hide TableShape, OnDisk, SlotsMatch, TreeOk, Group, Tracks, DigestsMatch, SegmentAddr;
    InvParts(st, sha3);
    var last := |st.segs| - 1;
    assert ExtentOf(st.segs, st.files, SegmentOwner(last)).End() <= |st.disk|;
  }

  lemma SlotParts(segs: Segs, itemType: ItemType, entry: SegmentEntry)
    requires ValidSlot(segs, SlotOf(itemType, entry))
    ensures entry.segmentIndex < |segs|
    ensures itemType.DirectoryType? ==> entry.entryIndex < |segs[entry.segmentIndex].dirs|
    ensures itemType.FileType? ==> entry.entryIndex < |segs[entry.segmentIndex].files|
  {
  }

  /** Emptying one slot of one segment by hand is emptying that slot of the table. */
  lemma EmptyFileSlot(segs: Segs, i: nat, j: nat)
    requires i < |segs| && j < |segs[i].files|
    ensures ValidSlot(segs, FileSlot(i, j))
    ensures segs[i := segs[i].(files := segs[i].files[j := None])] == SetSlot(segs, FileSlot(i, j), None)
  {
  }

  lemma EmptyDirectorySlot(segs: Segs, i: nat, j: nat)
    requires i < |segs| && j < |segs[i].dirs|
    ensures ValidSlot(segs, DirSlot(i, j))
    ensures segs[i := segs[i].(dirs := segs[i].dirs[j := None])] == SetSlot(segs, DirSlot(i, j), None)
  {
  }

  lemma DirInSlot(segs: Segs, i: nat, j: nat, dir: Directory)
    requires i < |segs| && j < |segs[i].dirs| && ItemAt(segs, DirSlot(i, j)) == Some(DirItem(dir))
    ensures segs[i].dirs[j] == Some(dir)
  {
  }

  lemma FileInSlot(segs: Segs, i: nat, j: nat, file: File)
    requires i < |segs| && j < |segs[i].files| && ItemAt(segs, FileSlot(i, j)) == Some(FileItem(file))
    ensures segs[i].files[j] == Some(file)
  {
  }

  /** What a file that is stored under the next identifier makes of a valid archive. */
  lemma NewFileStep(st: State, sha3: Hash, s: Slot, file: File, bytes: seq<Byte>)
    requires Inv(st, sha3)
    requires ValidSlot(st.segs, s) && s.FileSlot? && ItemAt(st.segs, s).None?
    requires file.id == st.nextId && file.parentDir in st.content && file.name !in st.content[file.parentDir].names
    requires StoredFile(file, file.contentAddr, bytes, sha3)
    requires file.contentAddr <= |st.disk| && |Write(st.disk, file.contentAddr, bytes)| < U64_LIMIT
    requires DisjointFromAll(BlobExtent(file), st.used)
    ensures file.id !in st.files && file.id !in st.content[file.parentDir].files && FreedFor(st, file.id) == st.used
    ensures var st' := AfterCreateFile(st, s, file, bytes);
            && Inv(st', sha3)
            && Contents(st'.disk, st'.files) == Contents(st.disk, st.files)[file.id := bytes]
            && |st'.disk| == |Write(st.disk, file.contentAddr, bytes)|
            && OneEntryWritten(st, st', s, []) && |st'.segs| == |st.segs| && ItemAt(st'.segs, s) == Some(FileItem(file))
  {
    hide Inv, Write, SetSlot, EntryAddr, ItemAt, EncodeFile, DisjointFromAll, Contents, OneEntryWritten;
    NewFile(st, sha3, file.id);
    CreateFileStep(st, sha3, s, file, bytes);
    StoreFileFrame(st, AfterCreateFile(st, s, file, bytes), sha3, s, file, bytes);
  }

  /** An identifier that has not been given yet belongs to no file. */
  lemma NewFile(st: State, sha3: Hash, id: Id)
    requires Inv(st, sha3) && id == st.nextId
    ensures id !in st.files && FreedFor(st, id) == st.used
  {
    ContentIs(st, sha3);
    FreshIdentifier(st.dirs, st.files, st.nextId, FileId(id));
  }

  lemma LiveFile(st: State, sha3: Hash, id: Id)
    requires Inv(st, sha3) && id in st.files
    ensures st.files[id].id == id && st.files[id].parentDir in st.content
  {
    ContentIs(st, sha3);
    assert Lookup(st.dirs, st.files, FileId(id)).Some?;
  }

  lemma LiveDir(st: State, sha3: Hash, id: Id)
    requires Inv(st, sha3) && id in st.dirs
    ensures st.dirs[id].id == id && st.dirs[id].parentDir in st.content && NonRoot(id) in st.content
    ensures st.dirs[id].parentDir.NonRoot? ==> st.dirs[id].parentDir.id < id
  {
    ContentIs(st, sha3);
    assert Lookup(st.dirs, st.files, DirId(id)).Some?;
  }

  lemma FreedIs(st: State, id: Id)
    requires id in st.files
    ensures FreedFor(st, id) == Unmarked(st.used, Extent(st.files[id].contentAddr, st.files[id].contentLen))
  {
  }

  lemma ReplaceFileFrame(st: State, sha3: Hash, s: Slot, file: File, bytes: seq<Byte>)
    requires Inv(st, sha3) && ValidSlot(st.segs, s) && s.FileSlot? && file.id in st.files
    requires ItemAt(st.segs, s) == Some(FileItem(st.files[file.id])) && Placed(st, file, bytes, sha3)
    ensures ItemRewritten(st, AfterStoreFile(st, s, file, bytes), FileItem(st.files[file.id]), FileItem(file),
                          [BlobExtent(st.files[file.id])])
  {
    hide Inv, Write, SetSlot, EntryAddr, ItemAt, EncodeFile, Placed, OneEntryWritten;
    StoreFileFrame(st, AfterStoreFile(st, s, file, bytes), sha3, s, file, bytes);
  }

  /** The allocator is ready again once the zone of a file has been freed. */
  lemma FreedReady(st: State, sha3: Hash, id: Id)
    requires Inv(st, sha3)
    ensures Ready(FreedFor(st, id), 0) && Within(FreedFor(st, id), st.len) && st.len == |st.disk|
  {
    hide Layout, FreedFor;
    InvParts(st, sha3);
    WithoutFile(st, sha3, id);
    TrackedWithin(|st.disk|, FreedFor(st, id), st.segs, st.files - {id});
  }

  // -- Recursive removal -------------------------------------------------------------------------

  /** The elements of a hash set, in any order. */
  method ListOf(ids: set<Id>) returns (list: seq<Id>)
    ensures Distinct(list) && forall id :: id in list <==> id in ids
  {
    list := [];
    var rest := ids;
    while rest != {}
      invariant rest <= ids && Distinct(list)
      invariant forall id :: id in list <==> id in ids && id !in rest
      decreases |rest|
    {
      var id :| id in rest;
      list := list + [id];
      rest := rest - {id};
    }
  }

  lemma ChildrenListed(st: State, sha3: Hash, id: Id)
    requires Inv(st, sha3) && id in st.dirs
    ensures NonRoot(id) in st.content
    ensures st.content[NonRoot(id)].dirs == DirsIn(st.dirs, NonRoot(id))
    ensures st.content[NonRoot(id)].files == FilesIn(st.files, NonRoot(id))
    ensures id < st.nextId
  {
    hide Inv, NamesIn;
    ContentIs(st, sha3);
    assert Lookup(st.dirs, st.files, DirId(id)).Some?;
    assert WellPlaced(st.dirs, DirItem(st.dirs[id]), DirId(id), st.nextId);
  }

  lemma FamilyLeft(st: State, st1: State, sha3: Hash, id: Id, subDirs: seq<Id>)
    requires Inv(st, sha3) && id in st.dirs && PrunedBy(st, st1, subDirs)
    requires forall d :: d in subDirs <==> d in DirsIn(st.dirs, NonRoot(id))
    ensures id in st1.dirs
    ensures forall f :: f in FilesIn(st.files, NonRoot(id)) ==> f in st1.files
  {
    hide Inv, IsUnder, Survives;
    ContentIs(st, sha3);
    FamilySurvives(st.dirs, st.files, st.nextId, id, subDirs);
  }

  /** The next child is still there, and younger than its parent. */
  lemma NextSubDir(st: State, st1: State, sha3: Hash, id: Id, subDirs: seq<Id>, i: nat)
    requires Inv(st, sha3) && id in st.dirs && i < |subDirs| && Distinct(subDirs)
    requires PrunedBy(st, st1, subDirs[..i])
    requires forall d :: d in subDirs <==> d in DirsIn(st.dirs, NonRoot(id))
    ensures subDirs[i] in st1.dirs && id < subDirs[i] < st.nextId
  {
    hide Inv, IsUnder, Survives;
    ContentIs(st, sha3);
    var child := subDirs[i];
    assert child in subDirs;
    assert child !in subDirs[..i];
    FamilySurvives(st.dirs, st.files, st.nextId, id, subDirs[..i]);
    assert Lookup(st.dirs, st.files, DirId(child)).Some?;
    assert WellPlaced(st.dirs, DirItem(st.dirs[child]), DirId(child), st.nextId);
  }

  lemma StillInSlot(st: State, st2: State, sha3: Hash, s: Slot, id: Id)
    requires Inv(st, sha3) && Shrunk(st, st2) && id in st.dirs && id in st2.dirs
    requires ValidSlot(st.segs, s) && ItemAt(st.segs, s) == Some(DirItem(st.dirs[id]))
    ensures ValidSlot(st2.segs, s) && EntryAddr(st2.segs, s) == EntryAddr(st.segs, s)
    ensures ItemAt(st2.segs, s) == Some(DirItem(st.dirs[id]))
    ensures st2.dirs[id] == st.dirs[id] && st.dirs[id].id == id
  {
    LiveDir(st, sha3, id);
    hide Inv;
    ShapeKeepsAddress(st.segs, st2.segs, s);
    assert Lookup(st2.dirs, st2.files, DirId(id)).Some?;
    assert ItemAt(st2.segs, s) == LeftIn(st.segs, st2.dirs, st2.files, s);
  }

  lemma ListingGone(st: State, st1: State, st2: State, id: Id, subDirs: seq<Id>, subFiles: seq<Id>)
    requires Shrunk(st, st2) && PrunedBy(st, st1, subDirs) && st2.dirs == st1.dirs
    requires forall d :: d in subDirs <==> d in DirsIn(st.dirs, NonRoot(id))
    requires forall f :: f in subFiles <==> f in FilesIn(st.files, NonRoot(id))
    requires forall f :: f in st2.files <==> f in st1.files && f !in subFiles
    ensures ChildrenOf(st2.dirs, st2.files, NonRoot(id)) == EMPTY_CONTENT
  {
    hide Shrunk, ChildrenOf;
    forall d | d in DirsIn(st.dirs, NonRoot(id))
      ensures d !in st2.dirs
    {
      var n :| 0 <= n < |subDirs| && subDirs[n] == d;
      assert IsUnder(st.dirs, NonRoot(d), subDirs[n]);
    }
    ListingEmptied(st, st2, id);
  }

  lemma RemoveFileShrinks(st: State, sha3: Hash, s: Slot, file: File)
    requires Inv(st, sha3) && ValidSlot(st.segs, s) && s.FileSlot?
    requires ItemAt(st.segs, s) == Some(FileItem(file)) && file.id in st.files && st.files[file.id] == file
    requires file.parentDir in st.content
    requires var st' := AfterRemoveFile(st, s, file);
             && Contents(st'.disk, st'.files) == Contents(st.disk, st.files) - {file.id}
             && |st'.disk| == |st.disk|
    ensures Shrunk(st, AfterRemoveFile(st, s, file))
  {
    hide Inv, Write, SetSlot, Blob, Unmarked, Shrunk, EntryAddr;
    FileGone(st.dirs, st.files, file.id);
    hide Changed;
    var st' := AfterRemoveFile(st, s, file);
    assert forall f :: f in st'.files ==> f in Contents(st.disk, st.files) - {file.id};
    SlotGone(st, st', sha3, s, FileId(file.id));
  }

  lemma RemoveDirShrinks(st: State, sha3: Hash, s: Slot, dir: Directory)
    requires Inv(st, sha3) && ValidSlot(st.segs, s) && s.DirSlot?
    requires ItemAt(st.segs, s) == Some(DirItem(dir)) && dir.id in st.dirs && st.dirs[dir.id] == dir
    requires dir.parentDir in st.content
    requires var st' := AfterRemoveDir(st, s, dir);
             && Contents(st'.disk, st'.files) == Contents(st.disk, st.files)
             && |st'.disk| == |st.disk|
    ensures Shrunk(st, AfterRemoveDir(st, s, dir))
  {
    hide Inv, Write, SetSlot, Blob, Shrunk, EntryAddr;
    DirGone(st.dirs, st.files, dir.id);
    hide Changed;
    SlotGone(st, AfterRemoveDir(st, s, dir), sha3, s, DirId(dir.id));
  }

  /** Closing a valid archive and opening its bytes again restores all of it, under any configuration. */
  method Reopen(archive: Archive, conf: ArchiveConfig) returns (reopened: Archive)
    requires archive.Valid()
    modifies archive.source`pos
    ensures fresh(reopened) && fresh(reopened.coverage) && reopened.source == archive.source
    ensures reopened.conf == conf && reopened.sha3 == archive.sha3
    ensures reopened.Valid()
    ensures reopened.State() == archive.State().(nextId := reopened.nextId)
    ensures reopened.nextId <= archive.nextId
    ensures IsNextId(archive.dirs.Keys + archive.files.Keys, reopened.nextId)
  {
    hide Inv, WalkChain, Openable, Rebuilt, Healthy, FilledDirs, FilledFiles, DecodeHeader, IsNextId;
    ghost var st := archive.State();
    ReopenSucceeds(st, archive.sha3);
    var source := archive.Close();
    var r := Archive.Open(source, conf, archive.sha3);
    assert WalkChain(source.data, HEADER_SIZE, |st.segs| - 1) == Some(Ok(Table(Addresses(st.segs), st.segs)));
    reopened := r.value;
    ReopenRestores(st, reopened.State(), archive.sha3);
  }
}
