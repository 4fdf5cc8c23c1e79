/** The fixed-size entries of the file table: 280 bytes for a directory, 328 bytes for a file. */
module Entries {
  import opened Wrappers
  import opened Bytes
  import opened Sources
  import opened Names

  const DIRECTORY_ENTRY_SIZE := 280
  const FILE_ENTRY_SIZE := 328
  const NAME_OFFSET_IN_ENTRY := 16
  const DIGEST_SIZE := 32

  /** Identifiers are non-zero, as zero marks an empty slot; directories and files share one counter. */
  type Id = n: int | 0 < n < U64_LIMIT witness 1

  type Digest = bytes: seq<Byte> | |bytes| == DIGEST_SIZE witness seq(DIGEST_SIZE, _ => 0)

  datatype DirRef = Root | NonRoot(id: Id)

  datatype Directory = Directory(id: Id, parentDir: DirRef, name: Name, modifTime: U64)

  datatype File = File(
    id: Id,
    parentDir: DirRef,
    name: Name,
    modifTime: U64,
    contentAddr: U64,
    contentLen: U64,
    checksum: Digest)

  datatype EntryDecodingError = InvalidEntry(io: IoError) | InvalidName(name: NameDecodingError)

  function RefNumber(ref: DirRef): U64 {
    match ref
    case Root => 0
    case NonRoot(id) => id
  }

  function RefOfNumber(n: U64): DirRef {
    if n == 0 then Root else NonRoot(n)
  }

  // -- Encoding ----------------------------------------------------------------------------------

  function EncodeDir(dir: Directory): (bytes: seq<Byte>)
    ensures |bytes| == DIRECTORY_ENTRY_SIZE
  {
    U64Bytes(dir.id) + U64Bytes(RefNumber(dir.parentDir)) + EncodeName(dir.name) + U64Bytes(dir.modifTime)
  }

  function EncodeFile(file: File): (bytes: seq<Byte>)
    ensures |bytes| == FILE_ENTRY_SIZE
  {
    U64Bytes(file.id) + U64Bytes(RefNumber(file.parentDir)) + EncodeName(file.name) + U64Bytes(file.modifTime)
    + U64Bytes(file.contentAddr) + U64Bytes(file.contentLen) + file.checksum
  }

  method EncodeDirectoryEntry(dir: Directory) returns (bytes: seq<Byte>)
    ensures bytes == EncodeDir(dir)
  {
    hide U64Bytes, EncodeName;
    bytes := [];
    bytes := bytes + U64Bytes(dir.id);
    bytes := bytes + U64Bytes(RefNumber(dir.parentDir));
    var field := FillNameField(dir.name);
    bytes := bytes + field[..];
    bytes := bytes + U64Bytes(dir.modifTime);
  }

  method EncodeFileEntry(file: File) returns (bytes: seq<Byte>)
    ensures bytes == EncodeFile(file)
  {
    hide U64Bytes, EncodeName;
    bytes := [];
    bytes := bytes + U64Bytes(file.id);
    bytes := bytes + U64Bytes(RefNumber(file.parentDir));
    var field := FillNameField(file.name);
    bytes := bytes + field[..];
    bytes := bytes + U64Bytes(file.modifTime);
    bytes := bytes + U64Bytes(file.contentAddr);
    bytes := bytes + U64Bytes(file.contentLen);
    bytes := bytes + file.checksum;
  }

  // -- Decoding ----------------------------------------------------------------------------------

  function AsEntry<T>(r: Result<T, IoError>): Result<T, EntryDecodingError> {
    match r
    case Ok(value) => Ok(value)
    case Err(error) => Err(InvalidEntry(error))
  }

  function DecodeNameAt(data: seq<Byte>, pos: nat): Result<Name, EntryDecodingError> {
    var field :- AsEntry(ReadAt(data, pos, NAME_FIELD_SIZE));
    match DecodeName(field)
    case Ok(name) => Ok(name)
    case Err(error) => Err(InvalidName(error))
  }

  /** The directory slot stored at `pos`: an identifier of zero means an empty slot, whatever follows. */
  function DecodeDir(data: seq<Byte>, pos: nat): Result<Option<Directory>, EntryDecodingError> {
    var id :- AsEntry(ReadU64At(data, pos));
    if id == 0 then Ok(None)
    else
      var parent :- AsEntry(ReadU64At(data, pos + 8));
      var name :- DecodeNameAt(data, pos + 16);
      var modifTime :- AsEntry(ReadU64At(data, pos + 272));
      Ok(Some(Directory(id, RefOfNumber(parent), name, modifTime)))
  }

  function DecodeFile(data: seq<Byte>, pos: nat): Result<Option<File>, EntryDecodingError> {
    var id :- AsEntry(ReadU64At(data, pos));
    if id == 0 then Ok(None)
    else
      var parent :- AsEntry(ReadU64At(data, pos + 8));
      var name :- DecodeNameAt(data, pos + 16);
      var modifTime :- AsEntry(ReadU64At(data, pos + 272));
      var contentAddr :- AsEntry(ReadU64At(data, pos + 280));
      var contentLen :- AsEntry(ReadU64At(data, pos + 288));
      var checksum :- AsEntry(ReadAt(data, pos + 296, DIGEST_SIZE));
      Ok(Some(File(id, RefOfNumber(parent), name, modifTime, contentAddr, contentLen, checksum)))
  }

  method ConsumeName(source: Source) returns (r: Result<Name, EntryDecodingError>)
    modifies source`pos
    ensures r == DecodeNameAt(source.data, old(source.pos))
    ensures r.Ok? ==> source.pos == old(source.pos) + NAME_FIELD_SIZE
  {
    var field := source.ReadExact(NAME_FIELD_SIZE);
    if field.Err? {
      return Err(InvalidEntry(field.error));
    }
    var name := DecodeName(field.value);
    r := if name.Ok? then Ok(name.value) else Err(InvalidName(name.error));
  }

  method ConsumeDirectory(source: Source) returns (r: Result<Option<Directory>, EntryDecodingError>)
    modifies source`pos
    ensures r == DecodeDir(source.data, old(source.pos))
    ensures r.Ok? ==> source.pos == old(source.pos) + DIRECTORY_ENTRY_SIZE
  {
    var idRead := source.ReadU64();
    var id :- AsEntry(idRead);
    if id == 0 {
      source.Advance(DIRECTORY_ENTRY_SIZE - 8);
      return Ok(None);
    }
    var parentRead := source.ReadU64();
    var parent :- AsEntry(parentRead);
    var name :- ConsumeName(source);
    var timeRead := source.ReadU64();
    var modifTime :- AsEntry(timeRead);
    r := Ok(Some(Directory(id, RefOfNumber(parent), name, modifTime)));
  }

  method ConsumeFile(source: Source) returns (r: Result<Option<File>, EntryDecodingError>)
    modifies source`pos
    ensures r == DecodeFile(source.data, old(source.pos))
    ensures r.Ok? ==> source.pos == old(source.pos) + FILE_ENTRY_SIZE
  {
    var idRead := source.ReadU64();
    var id :- AsEntry(idRead);
    if id == 0 {
      source.Advance(FILE_ENTRY_SIZE - 8);
      return Ok(None);
    }
    var parentRead := source.ReadU64();
    var parent :- AsEntry(parentRead);
    var name :- ConsumeName(source);
    var timeRead := source.ReadU64();
    var modifTime :- AsEntry(timeRead);
    var addrRead := source.ReadU64();
    var contentAddr :- AsEntry(addrRead);
    var lenRead := source.ReadU64();
    var contentLen :- AsEntry(lenRead);
    var sumRead := source.ReadExact(DIGEST_SIZE);
    var checksum :- AsEntry(sumRead);
    r := Ok(Some(File(id, RefOfNumber(parent), name, modifTime, contentAddr, contentLen, checksum)));
  }

  // -- Round trips -------------------------------------------------------------------------------

  lemma ReadsStoredName(data: seq<Byte>, pos: nat, name: Name)
    requires At(data, pos, EncodeName(name))
    ensures DecodeNameAt(data, pos) == Ok(name)
  {
    NameRoundTrip(name);
  }

  /** The four fields that both kinds of entry start with. */
  lemma ReadsStoredHead(data: seq<Byte>, pos: nat, id: U64, parent: U64, name: Name, modifTime: U64)
    requires At(data, pos, U64Bytes(id) + U64Bytes(parent) + EncodeName(name) + U64Bytes(modifTime))
    ensures ReadU64At(data, pos) == Ok(id)
    ensures ReadU64At(data, pos + 8) == Ok(parent)
    ensures DecodeNameAt(data, pos + 16) == Ok(name)
    ensures ReadU64At(data, pos + 272) == Ok(modifTime)
  {
    hide U64Bytes, EncodeName, ReadU64At, DecodeNameAt;
    AtAppend(data, pos, U64Bytes(id) + U64Bytes(parent) + EncodeName(name), U64Bytes(modifTime));
    AtAppend(data, pos, U64Bytes(id) + U64Bytes(parent), EncodeName(name));
    AtAppend(data, pos, U64Bytes(id), U64Bytes(parent));
    ReadsStoredU64(data, pos, id);
    ReadsStoredU64(data, pos + 8, parent);
    ReadsStoredName(data, pos + 16, name);
    ReadsStoredU64(data, pos + 272, modifTime);
  }

  /** A stored directory is the directory that is decoded. */
  lemma DirRoundTrip(data: seq<Byte>, pos: nat, dir: Directory)
    requires At(data, pos, EncodeDir(dir))
    ensures DecodeDir(data, pos) == Ok(Some(dir))
  {
    hide U64Bytes, EncodeName, ReadU64At, DecodeNameAt;
    ReadsStoredHead(data, pos, dir.id, RefNumber(dir.parentDir), dir.name, dir.modifTime);
  }

  lemma FileRoundTrip(data: seq<Byte>, pos: nat, file: File)
    requires At(data, pos, EncodeFile(file))
    ensures DecodeFile(data, pos) == Ok(Some(file))
  {
    hide U64Bytes, EncodeName, ReadU64At, DecodeNameAt;
    var head := U64Bytes(file.id) + U64Bytes(RefNumber(file.parentDir)) + EncodeName(file.name)
                + U64Bytes(file.modifTime);
    AtAppend(data, pos, head + U64Bytes(file.contentAddr) + U64Bytes(file.contentLen), file.checksum);
    AtAppend(data, pos, head + U64Bytes(file.contentAddr), U64Bytes(file.contentLen));
    AtAppend(data, pos, head, U64Bytes(file.contentAddr));
    ReadsStoredHead(data, pos, file.id, RefNumber(file.parentDir), file.name, file.modifTime);
    ReadsStoredU64(data, pos + 280, file.contentAddr);
    ReadsStoredU64(data, pos + 288, file.contentLen);
  }

  /** A slot of zeroes is empty. */
  lemma EmptySlotsRoundTrip(data: seq<Byte>, pos: nat)
    ensures At(data, pos, Zeros(DIRECTORY_ENTRY_SIZE)) ==> DecodeDir(data, pos) == Ok(None)
    ensures At(data, pos, Zeros(FILE_ENTRY_SIZE)) ==> DecodeFile(data, pos) == Ok(None)
  {
    ZeroBytes(8);
    if At(data, pos, Zeros(DIRECTORY_ENTRY_SIZE)) {
      AtAppend(data, pos, Zeros(8), Zeros(DIRECTORY_ENTRY_SIZE - 8));
      assert Zeros(8) + Zeros(DIRECTORY_ENTRY_SIZE - 8) == Zeros(DIRECTORY_ENTRY_SIZE);
      ReadsStoredU64(data, pos, 0);
    }
    if At(data, pos, Zeros(FILE_ENTRY_SIZE)) {
      AtAppend(data, pos, Zeros(8), Zeros(FILE_ENTRY_SIZE - 8));
      assert Zeros(8) + Zeros(FILE_ENTRY_SIZE - 8) == Zeros(FILE_ENTRY_SIZE);
      ReadsStoredU64(data, pos, 0);
    }
  }

  lemma {:induction false} ZeroBytes(width: nat)
    ensures LittleEndian(0, width) == Zeros(width)
  {
    if width > 0 {
      ZeroBytes(width - 1);
    }
  }

  /** The name field of an entry can be rewritten alone: it starts 16 bytes into both kinds of entry. */
  lemma RenameInPlace(disk: seq<Byte>, addr: nat, name: Name, dir: Directory, file: File)
    ensures At(disk, addr, EncodeDir(dir)) ==>
              Write(disk, addr + NAME_OFFSET_IN_ENTRY, EncodeName(name)) ==
              Write(disk, addr, EncodeDir(dir.(name := name)))
    ensures At(disk, addr, EncodeFile(file)) ==>
              Write(disk, addr + NAME_OFFSET_IN_ENTRY, EncodeName(name)) ==
              Write(disk, addr, EncodeFile(file.(name := name)))
  {
    hide U64Bytes, EncodeName;
    if At(disk, addr, EncodeDir(dir)) {
      var head := U64Bytes(dir.id) + U64Bytes(RefNumber(dir.parentDir));
      WriteMiddle(disk, addr, head, EncodeName(dir.name), EncodeName(name), U64Bytes(dir.modifTime));
    }
    if At(disk, addr, EncodeFile(file)) {
      var head := U64Bytes(file.id) + U64Bytes(RefNumber(file.parentDir));
      var end := U64Bytes(file.contentAddr) + U64Bytes(file.contentLen) + file.checksum;
      var tail := U64Bytes(file.modifTime) + end;
      assert EncodeFile(file) == head + EncodeName(file.name) + tail;
      assert EncodeFile(file.(name := name)) == head + EncodeName(name) + tail;
      WriteMiddle(disk, addr, head, EncodeName(file.name), EncodeName(name), tail);
    }
  }
}
