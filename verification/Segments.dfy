/** File table segments: a next pointer, two counts, then directory slots and file slots. */
module Segments {
  import opened Wrappers
  import opened Bytes
  import opened Sources
  import opened Entries

  datatype SegmentData = SegmentData(
    nextSegmentAddr: Option<U64>,
    dirs: seq<Option<Directory>>,
    files: seq<Option<File>>)

  /** Slot counts are stored on four bytes. */
  type FileTableSegment = s: SegmentData | |s.dirs| < U32_LIMIT && |s.files| < U32_LIMIT
    witness SegmentData(None, [], [])

  function EncodedLen(s: FileTableSegment): nat {
    16 + |s.dirs| * DIRECTORY_ENTRY_SIZE + |s.files| * FILE_ENTRY_SIZE
  }

  function DirEntryOffset(s: FileTableSegment, index: nat): Option<nat> {
    if index >= |s.dirs| then None else Some(16 + index * DIRECTORY_ENTRY_SIZE)
  }

  function FileEntryOffset(s: FileTableSegment, index: nat): Option<nat> {
    if index >= |s.files| then None
    else Some(16 + |s.dirs| * DIRECTORY_ENTRY_SIZE + index * FILE_ENTRY_SIZE)
  }

  // -- Encoding ----------------------------------------------------------------------------------

  function DirSlotBytes(slot: Option<Directory>): (bytes: seq<Byte>)
    ensures |bytes| == DIRECTORY_ENTRY_SIZE
  {
    match slot
    case Some(dir) => EncodeDir(dir)
    case None => Zeros(DIRECTORY_ENTRY_SIZE)
  }

  function FileSlotBytes(slot: Option<File>): (bytes: seq<Byte>)
    ensures |bytes| == FILE_ENTRY_SIZE
  {
    match slot
    case Some(file) => EncodeFile(file)
    case None => Zeros(FILE_ENTRY_SIZE)
  }

  function NextBytes(s: FileTableSegment): (bytes: seq<Byte>)
    ensures |bytes| == 8
  {
    U64Bytes(s.nextSegmentAddr.GetOr(0))
  }

  function CountBytes(s: FileTableSegment): (bytes: seq<Byte>)
    ensures |bytes| == 8
  {
    U32Bytes(|s.dirs|) + U32Bytes(|s.files|)
  }

  function DirParts(dirs: seq<Option<Directory>>): (parts: seq<seq<Byte>>)
    ensures |parts| == |dirs|
  {
    seq(|dirs|, j requires 0 <= j < |dirs| => DirSlotBytes(dirs[j]))
  }

  function FileParts(files: seq<Option<File>>): (parts: seq<seq<Byte>>)
    ensures |parts| == |files|
  {
    seq(|files|, j requires 0 <= j < |files| => FileSlotBytes(files[j]))
  }

  /** The pieces that a segment is written in: next pointer, counts, directory slots, file slots. */
  function Parts(s: FileTableSegment): (parts: seq<seq<Byte>>)
    ensures |parts| == 2 + |s.dirs| + |s.files|
  {
    [NextBytes(s), CountBytes(s)] + DirParts(s.dirs) + FileParts(s.files)
  }

  function Concat(parts: seq<seq<Byte>>): seq<Byte> {
    if parts == [] then [] else Concat(parts[..|parts| - 1]) + parts[|parts| - 1]
  }

  function EncodeSegment(s: FileTableSegment): seq<Byte> {
    Concat(Parts(s))
  }

  lemma {:induction false} ConcatAppend(front: seq<seq<Byte>>, back: seq<seq<Byte>>)
    ensures Concat(front + back) == Concat(front) + Concat(back)
    decreases |back|
  {
    if back == [] {
      assert front + back == front;
    } else {
      var n := |back| - 1;
      ConcatAppend(front, back[..n]);
      assert (front + back)[..|front + back| - 1] == front + back[..n];
    }
  }

  lemma ConcatNothing()
    ensures Concat([]) == []
  {
  }

  lemma ConcatOne(part: seq<Byte>)
    ensures Concat([part]) == part
  {
    assert Concat([part]) == Concat([]) + part;
  }

  lemma ConcatAround(front: seq<seq<Byte>>, part: seq<Byte>, back: seq<seq<Byte>>)
    ensures Concat(front + [part] + back) == Concat(front) + part + Concat(back)
  {
    hide Concat;
    ConcatAppend(front + [part], back);
    ConcatAppend(front, [part]);
    ConcatOne(part);
  }

  lemma ConcatStep(parts: seq<seq<Byte>>, k: nat)
    requires k < |parts|
    ensures Concat(parts[..k + 1]) == Concat(parts[..k]) + parts[k]
  {
    assert parts[..k + 1][..k] == parts[..k];
  }

  lemma SplitAround<T>(s: seq<T>, k: nat)
    requires k < |s|
    ensures s == s[..k] + [s[k]] + s[k + 1..]
  {
  }

  lemma PartsOf(s: FileTableSegment)
    ensures Parts(s)[0] == NextBytes(s) && Parts(s)[1] == CountBytes(s)
    ensures forall j :: 0 <= j < |s.dirs| ==> Parts(s)[2 + j] == DirSlotBytes(s.dirs[j])
    ensures forall j :: 0 <= j < |s.files| ==> Parts(s)[2 + |s.dirs| + j] == FileSlotBytes(s.files[j])
  {
    hide NextBytes, CountBytes, DirSlotBytes, FileSlotBytes;
  }

  /** Offset of the k-th part: the slots before it are all there and all of fixed size. */
  lemma {:induction false} PartOffset(s: FileTableSegment, k: nat)
    requires k <= |Parts(s)|
    ensures |Concat(Parts(s)[..k])| ==
            if k < 2 then 8 * k
            else if k <= 2 + |s.dirs| then 16 + (k - 2) * DIRECTORY_ENTRY_SIZE
            else 16 + |s.dirs| * DIRECTORY_ENTRY_SIZE + (k - 2 - |s.dirs|) * FILE_ENTRY_SIZE
  {
    hide NextBytes, CountBytes, DirSlotBytes, FileSlotBytes, Parts, Concat;
    if k == 0 {
      assert Concat([]) == [] by {
        ConcatNothing();
      }
    } else {
      PartOffset(s, k - 1);
      ConcatStep(Parts(s), k - 1);
      PartsOf(s);
      assert k > 2 + |s.dirs| ==> Parts(s)[k - 1] == FileSlotBytes(s.files[k - 3 - |s.dirs|]);
      assert 2 < k <= 2 + |s.dirs| ==> Parts(s)[k - 1] == DirSlotBytes(s.dirs[k - 3]);
    }
  }

  /** The length of an encoded segment is the one that the allocator is told. */
  lemma EncodedSize(s: FileTableSegment)
    ensures |EncodeSegment(s)| == EncodedLen(s)
  {
    PartOffset(s, |Parts(s)|);
    assert Parts(s)[..|Parts(s)|] == Parts(s);
  }

  /** Each part of a stored segment sits at its offset. */
  lemma PartAt(disk: seq<Byte>, addr: nat, s: FileTableSegment, k: nat)
    requires At(disk, addr, EncodeSegment(s)) && k < |Parts(s)|
    ensures At(disk, addr + |Concat(Parts(s)[..k])|, Parts(s)[k])
  {
    hide Parts, Concat, At;
    var front, part, back := Parts(s)[..k], Parts(s)[k], Parts(s)[k + 1..];
    SplitAround(Parts(s), k);
    ConcatAround(front, part, back);
    AtAppend(disk, addr, Concat(front) + part, Concat(back));
    AtAppend(disk, addr, Concat(front), part);
  }

  /** Overwriting one part in place with one of the same size is rewriting the whole segment. */
  lemma PatchPart(disk: seq<Byte>, addr: nat, s: FileTableSegment, s': FileTableSegment, k: nat)
    requires At(disk, addr, EncodeSegment(s)) && k < |Parts(s)|
    requires |Parts(s')| == |Parts(s)| && Parts(s') == Parts(s)[k := Parts(s')[k]]
    requires |Parts(s')[k]| == |Parts(s)[k]|
    ensures Write(disk, addr + |Concat(Parts(s)[..k])|, Parts(s')[k]) == Write(disk, addr, EncodeSegment(s'))
    ensures At(Write(disk, addr + |Concat(Parts(s)[..k])|, Parts(s')[k]), addr, EncodeSegment(s'))
  {
    hide Parts, Concat, At, Write;
    var front, part, part', back := Parts(s)[..k], Parts(s)[k], Parts(s')[k], Parts(s)[k + 1..];
    SplitAround(Parts(s), k);
    SplitAround(Parts(s'), k);
    assert Parts(s')[..k] == front && Parts(s')[k + 1..] == back;
    ConcatAround(front, part, back);
    ConcatAround(front, part', back);
    WriteMiddle(disk, addr, Concat(front), part, part', Concat(back));
    WriteStores(disk, addr, EncodeSegment(s'));
  }

  lemma DirSlotAt(disk: seq<Byte>, addr: nat, s: FileTableSegment, j: nat)
    requires At(disk, addr, EncodeSegment(s)) && j < |s.dirs|
    ensures At(disk, addr + DirEntryOffset(s, j).value, DirSlotBytes(s.dirs[j]))
  {
    PartsOf(s);
    hide At, EncodeSegment, Parts, Concat, DirSlotBytes;
    PartOffset(s, 2 + j);
    PartAt(disk, addr, s, 2 + j);
  }

  lemma FileSlotAt(disk: seq<Byte>, addr: nat, s: FileTableSegment, j: nat)
    requires At(disk, addr, EncodeSegment(s)) && j < |s.files|
    ensures At(disk, addr + FileEntryOffset(s, j).value, FileSlotBytes(s.files[j]))
  {
    PartsOf(s);
    hide At, EncodeSegment, Parts, Concat, FileSlotBytes;
    PartOffset(s, 2 + |s.dirs| + j);
    PartAt(disk, addr, s, 2 + |s.dirs| + j);
  }

  lemma PartsDirChanged(s: FileTableSegment, j: nat, slot: Option<Directory>)
    requires j < |s.dirs|
    ensures Parts(s.(dirs := s.dirs[j := slot])) == Parts(s)[2 + j := DirSlotBytes(slot)]
    ensures Parts(s.(dirs := s.dirs[j := slot]))[2 + j] == DirSlotBytes(slot)
    ensures |Parts(s)[2 + j]| == |DirSlotBytes(slot)|
  {
    hide DirSlotBytes, FileSlotBytes, U64Bytes, U32Bytes;
    assert DirParts(s.dirs[j := slot]) == DirParts(s.dirs)[j := DirSlotBytes(slot)];
  }

  lemma PartsFileChanged(s: FileTableSegment, j: nat, slot: Option<File>)
    requires j < |s.files|
    ensures Parts(s.(files := s.files[j := slot])) == Parts(s)[2 + |s.dirs| + j := FileSlotBytes(slot)]
    ensures Parts(s.(files := s.files[j := slot]))[2 + |s.dirs| + j] == FileSlotBytes(slot)
    ensures |Parts(s)[2 + |s.dirs| + j]| == |FileSlotBytes(slot)|
  {
    hide DirSlotBytes, FileSlotBytes, U64Bytes, U32Bytes;
    assert FileParts(s.files[j := slot]) == FileParts(s.files)[j := FileSlotBytes(slot)];
  }

  /** Writing one directory slot leaves the disk equal to a full encoding of the changed segment. */
  lemma PatchDirSlot(disk: seq<Byte>, addr: nat, s: FileTableSegment, j: nat, slot: Option<Directory>)
    requires At(disk, addr, EncodeSegment(s)) && j < |s.dirs|
    ensures At(Write(disk, addr + DirEntryOffset(s, j).value, DirSlotBytes(slot)), addr,
               EncodeSegment(s.(dirs := s.dirs[j := slot])))
  {
    hide Parts, Concat, At, Write, EncodeSegment, DirSlotBytes;
    var s' := s.(dirs := s.dirs[j := slot]);
    PartOffset(s, 2 + j);
    PartsDirChanged(s, j, slot);
    PatchPart(disk, addr, s, s', 2 + j);
  }

  lemma PatchFileSlot(disk: seq<Byte>, addr: nat, s: FileTableSegment, j: nat, slot: Option<File>)
    requires At(disk, addr, EncodeSegment(s)) && j < |s.files|
    ensures At(Write(disk, addr + FileEntryOffset(s, j).value, FileSlotBytes(slot)), addr,
               EncodeSegment(s.(files := s.files[j := slot])))
  {
    hide Parts, Concat, At, Write, EncodeSegment, FileSlotBytes;
    var s' := s.(files := s.files[j := slot]);
    PartOffset(s, 2 + |s.dirs| + j);
    PartsFileChanged(s, j, slot);
    PatchPart(disk, addr, s, s', 2 + |s.dirs| + j);
  }

  /** Writing the first eight bytes of a segment changes its next pointer and nothing else. */
  lemma PatchNext(disk: seq<Byte>, addr: nat, s: FileTableSegment, next: U64)
    requires At(disk, addr, EncodeSegment(s))
    ensures At(Write(disk, addr, U64Bytes(next)), addr, EncodeSegment(s.(nextSegmentAddr := Some(next))))
  {
    var s' := s.(nextSegmentAddr := Some(next));
    hide U64Bytes, U32Bytes, DirSlotBytes, FileSlotBytes;
    assert Parts(s') == Parts(s)[0 := U64Bytes(next)];
    PatchPart(disk, addr, s, s', 0);
    assert Parts(s)[..0] == [];
  }

  method Encode(s: FileTableSegment) returns (bytes: seq<Byte>)
    ensures bytes == EncodeSegment(s)
  {
    PartsOf(s);
    hide U64Bytes, U32Bytes, EncodeDir, EncodeFile, Zeros, Parts, Concat;
    ghost var parts := Parts(s);
    assert Concat(parts[..2]) == NextBytes(s) + CountBytes(s) by {
      ConcatStep(parts, 0);
      ConcatStep(parts, 1);
      PartOffset(s, 0);
    }
    bytes := [];
    bytes := bytes + U64Bytes(s.nextSegmentAddr.GetOr(0));
    bytes := bytes + U32Bytes(|s.dirs|);
    bytes := bytes + U32Bytes(|s.files|);
    for j := 0 to |s.dirs|
      invariant bytes == Concat(parts[..2 + j])
    {
      var slot: seq<Byte>;
      if s.dirs[j].Some? {
        slot := EncodeDirectoryEntry(s.dirs[j].value);
      } else {
        slot := Zeros(DIRECTORY_ENTRY_SIZE);
      }
      bytes := bytes + slot;
      ConcatStep(parts, 2 + j);
    }
    var n := 2 + |s.dirs|;
    for j := 0 to |s.files|
      invariant bytes == Concat(parts[..n + j])
    {
      var slot: seq<Byte>;
      if s.files[j].Some? {
        slot := EncodeFileEntry(s.files[j].value);
      } else {
        slot := Zeros(FILE_ENTRY_SIZE);
      }
      bytes := bytes + slot;
      ConcatStep(parts, n + j);
    }
    assert parts[..|parts|] == parts;
  }

  // -- Decoding ----------------------------------------------------------------------------------

  datatype SegmentDecodingError =
    | InvalidHeader(io: IoError)
    | InvalidDirectoryEntry(entryAddr: nat, entry: EntryDecodingError)
    | InvalidFileEntry(entryAddr: nat, entry: EntryDecodingError)

  function AsHeader<T>(r: Result<T, IoError>): Result<T, SegmentDecodingError> {
    match r
    case Ok(value) => Ok(value)
    case Err(error) => Err(InvalidHeader(error))
  }

  /** The first `count` directory slots stored from `pos` on, or the first error met. */
  function DecodeDirs(data: seq<Byte>, pos: nat, count: nat): (r: Result<seq<Option<Directory>>, SegmentDecodingError>)
    ensures r.Ok? ==> |r.value| == count
  {
    if count == 0 then Ok([])
    else
      var front :- DecodeDirs(data, pos, count - 1);
      var addr := pos + (count - 1) * DIRECTORY_ENTRY_SIZE;
      match DecodeDir(data, addr)
      case Ok(slot) => Ok(front + [slot])
      case Err(error) => Err(InvalidDirectoryEntry(addr, error))
  }

  function DecodeFiles(data: seq<Byte>, pos: nat, count: nat): (r: Result<seq<Option<File>>, SegmentDecodingError>)
    ensures r.Ok? ==> |r.value| == count
  {
    if count == 0 then Ok([])
    else
      var front :- DecodeFiles(data, pos, count - 1);
      var addr := pos + (count - 1) * FILE_ENTRY_SIZE;
      match DecodeFile(data, addr)
      case Ok(slot) => Ok(front + [slot])
      case Err(error) => Err(InvalidFileEntry(addr, error))
  }

  function DecodeSegment(data: seq<Byte>, addr: nat): Result<FileTableSegment, SegmentDecodingError> {
    var next :- AsHeader(ReadU64At(data, addr));
    var dirsCount :- AsHeader(ReadU32At(data, addr + 8));
    var filesCount :- AsHeader(ReadU32At(data, addr + 12));
    var dirs :- DecodeDirs(data, addr + 16, dirsCount);
    var files :- DecodeFiles(data, addr + 16 + dirsCount * DIRECTORY_ENTRY_SIZE, filesCount);
    Ok(SegmentData(if next == 0 then None else Some(next), dirs, files))
  }

  lemma {:induction false} DirErrorStays(data: seq<Byte>, pos: nat, some: nat, count: nat)
    requires some <= count && DecodeDirs(data, pos, some).Err?
    ensures DecodeDirs(data, pos, count) == DecodeDirs(data, pos, some)
  {
    hide DecodeDir;
    if some < count {
      DirErrorStays(data, pos, some, count - 1);
    }
  }

  lemma {:induction false} FileErrorStays(data: seq<Byte>, pos: nat, some: nat, count: nat)
    requires some <= count && DecodeFiles(data, pos, some).Err?
    ensures DecodeFiles(data, pos, count) == DecodeFiles(data, pos, some)
  {
    hide DecodeFile;
    if some < count {
      FileErrorStays(data, pos, some, count - 1);
    }
  }

  /** Reads a segment at the current position and leaves the position behind it. */
  method Decode(source: Source) returns (r: Result<FileTableSegment, SegmentDecodingError>)
    modifies source`pos
    ensures r == DecodeSegment(source.data, old(source.pos))
    ensures r.Ok? ==> source.pos == old(source.pos) + EncodedLen(r.value)
  {
    hide DecodeDir, DecodeFile;
    var nextRead := source.ReadU64();
    var next :- AsHeader(nextRead);
    var dirsRead := source.ReadU32();
    var dirsCount :- AsHeader(dirsRead);
    var filesRead := source.ReadU32();
    var filesCount :- AsHeader(filesRead);
    var start := source.pos;
    var dirs := [];
    for j := 0 to dirsCount
      invariant source.pos == start + j * DIRECTORY_ENTRY_SIZE
      invariant DecodeDirs(source.data, start, j) == Ok(dirs)
    {
      var addr := source.pos;
      var slot := ConsumeDirectory(source);
      if slot.Err? {
        DirErrorStays(source.data, start, j + 1, dirsCount);
        return Err(InvalidDirectoryEntry(addr, slot.error));
      }
      dirs := dirs + [slot.value];
    }
    var fileStart := source.pos;
    var files := [];
    for j := 0 to filesCount
      invariant source.pos == fileStart + j * FILE_ENTRY_SIZE
      invariant DecodeFiles(source.data, fileStart, j) == Ok(files)
    {
      var addr := source.pos;
      var slot := ConsumeFile(source);
      if slot.Err? {
        FileErrorStays(source.data, fileStart, j + 1, filesCount);
        return Err(InvalidFileEntry(addr, slot.error));
      }
      files := files + [slot.value];
    }
    r := Ok(SegmentData(if next == 0 then None else Some(next), dirs, files));
  }

  // -- Round trip --------------------------------------------------------------------------------

  lemma {:induction false} DirsRoundTrip(data: seq<Byte>, addr: nat, s: FileTableSegment, count: nat)
    requires At(data, addr, EncodeSegment(s)) && count <= |s.dirs|
    ensures DecodeDirs(data, addr + 16, count) == Ok(s.dirs[..count])
  {
    hide DecodeDir, EncodeSegment, At, Zeros, EncodeDir;
    if count > 0 {
      DirsRoundTrip(data, addr, s, count - 1);
      DirSlotAt(data, addr, s, count - 1);
      var pos := addr + 16 + (count - 1) * DIRECTORY_ENTRY_SIZE;
      EmptySlotsRoundTrip(data, pos);
      if s.dirs[count - 1].Some? {
        DirRoundTrip(data, pos, s.dirs[count - 1].value);
      }
      assert s.dirs[..count] == s.dirs[..count - 1] + [s.dirs[count - 1]];
    }
  }

  lemma {:induction false} FilesRoundTrip(data: seq<Byte>, addr: nat, s: FileTableSegment, count: nat)
    requires At(data, addr, EncodeSegment(s)) && count <= |s.files|
    ensures DecodeFiles(data, addr + 16 + |s.dirs| * DIRECTORY_ENTRY_SIZE, count) == Ok(s.files[..count])
  {
    hide DecodeFile, EncodeSegment, At, Zeros, EncodeFile;
    if count > 0 {
      FilesRoundTrip(data, addr, s, count - 1);
      FileSlotAt(data, addr, s, count - 1);
      var pos := addr + 16 + |s.dirs| * DIRECTORY_ENTRY_SIZE + (count - 1) * FILE_ENTRY_SIZE;
      EmptySlotsRoundTrip(data, pos);
      if s.files[count - 1].Some? {
        FileRoundTrip(data, pos, s.files[count - 1].value);
      }
      assert s.files[..count] == s.files[..count - 1] + [s.files[count - 1]];
    }
  }

  /** A stored segment is the segment that is decoded, for any mix of empty and filled slots. */
  lemma SegmentRoundTrip(data: seq<Byte>, addr: nat, s: FileTableSegment)
    requires At(data, addr, EncodeSegment(s)) && s.nextSegmentAddr != Some(0)
    ensures DecodeSegment(data, addr) == Ok(s)
  {
    hide U64Bytes, U32Bytes, ReadU64At, ReadU32At, DecodeDirs, DecodeFiles, EncodeSegment, Parts, Concat, At;
    PartAt(data, addr, s, 0);
    PartAt(data, addr, s, 1);
    PartOffset(s, 0);
    PartOffset(s, 1);
    PartsOf(s);
    AtAppend(data, addr + 8, U32Bytes(|s.dirs|), U32Bytes(|s.files|));
    ReadsStoredU64(data, addr, s.nextSegmentAddr.GetOr(0));
    ReadsStoredU32(data, addr + 8, |s.dirs|);
    ReadsStoredU32(data, addr + 12, |s.files|);
    DirsRoundTrip(data, addr, s, |s.dirs|);
    FilesRoundTrip(data, addr, s, |s.files|);
    assert s.dirs[..|s.dirs|] == s.dirs && s.files[..|s.files|] == s.files;
  }
}
