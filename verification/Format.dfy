/** The stored format, byte by byte, as docs/specs.md lays it out, said without the encoding functions. */
module Formats {
  import opened Wrappers
  import opened Bytes
  import opened Names
  import opened Entries
  import opened Segments
  import opened Headers
  import opened Sources
  import opened FileTable
  import opened Layouts
  import opened States

  // -- What is stored where ----------------------------------------------------------------------

  /** The number stored on four bytes, the lowest first. */
  function Word32(data: seq<Byte>, at: nat): nat
    requires at + 4 <= |data|
  {
    var b0: nat, b1: nat, b2: nat, b3: nat := data[at], data[at + 1], data[at + 2], data[at + 3];
    b0 + 0x100 * b1 + 0x1_0000 * b2 + 0x100_0000 * b3
  }

  /** The number stored on eight bytes, the lowest first. */
  function Word64(data: seq<Byte>, at: nat): nat
    requires at + 8 <= |data|
  {
    Word32(data, at) + 0x1_0000_0000 * Word32(data, at + 4)
  }

  ghost predicate ZeroesAt(data: seq<Byte>, low: nat, high: nat) {
    high <= |data| && forall i :: low <= i < high ==> data[i] == 0
  }

  /** "BASICARC", the version number 1 on four bytes, and zeroes. */
  ghost predicate HasHeader(data: seq<Byte>) {
    && 256 <= |data|
    && data[..8] == [0x42, 0x41, 0x53, 0x49, 0x43, 0x41, 0x52, 0x43]
    && data[8..12] == [1, 0, 0, 0]
    && ZeroesAt(data, 12, 256)
  }

  /** A length byte, the bytes of the name, and zeroes up to 256 bytes. */
  ghost predicate HasName(data: seq<Byte>, at: nat, name: Name) {
    && at + 256 <= |data| && |name| < 256
    && data[at] == |name|
    && data[at + 1..at + 1 + |name|] == name
    && ZeroesAt(data, at + 1 + |name|, at + 256)
  }

  /** Identifier, identifier of the parent or 0 for the root, name, and time. */
  ghost predicate HasItem(data: seq<Byte>, at: nat, id: Id, parent: DirRef, name: Name, modifTime: U64) {
    && at + 280 <= |data|
    && Word64(data, at) == id
    && Word64(data, at + 8) == (if parent.Root? then 0 else parent.id)
    && HasName(data, at + 16, name)
    && Word64(data, at + 272) == modifTime
  }

  ghost predicate HasDir(data: seq<Byte>, at: nat, dir: Directory) {
    HasItem(data, at, dir.id, dir.parentDir, dir.name, dir.modifTime)
  }

  /** What a directory has, then address and length of the content, and its digest. */
  ghost predicate HasFile(data: seq<Byte>, at: nat, file: File) {
    && at + 328 <= |data|
    && HasItem(data, at, file.id, file.parentDir, file.name, file.modifTime)
    && Word64(data, at + 280) == file.contentAddr
    && Word64(data, at + 288) == file.contentLen
    && data[at + 296..at + 328] == file.checksum
  }

  /** Address of the next segment or 0, the two capacities, directory slots, file slots; empty slots are zeroes. */
  ghost predicate HasSegment(data: seq<Byte>, at: nat, s: FileTableSegment) {
    && at + 16 <= |data|
    && Word64(data, at) == s.nextSegmentAddr.GetOr(0)
    && Word32(data, at + 8) == |s.dirs|
    && Word32(data, at + 12) == |s.files|
    && (forall j :: 0 <= j < |s.dirs| ==> HasDirSlot(data, at + 16 + 280 * j, s.dirs[j]))
    && (forall j :: 0 <= j < |s.files| ==> HasFileSlot(data, at + 16 + 280 * |s.dirs| + 328 * j, s.files[j]))
  }

  ghost predicate HasDirSlot(data: seq<Byte>, at: nat, slot: Option<Directory>) {
    if slot.Some? then HasDir(data, at, slot.value) else ZeroesAt(data, at, at + 280)
  }

  ghost predicate HasFileSlot(data: seq<Byte>, at: nat, slot: Option<File>) {
    if slot.Some? then HasFile(data, at, slot.value) else ZeroesAt(data, at, at + 328)
  }

  /** The segments follow each other from address 256 on, each at the address that the one before it points to. */
  ghost predicate HasChain(data: seq<Byte>, at: nat, segs: Segs)
    decreases |segs|
  {
    && segs != [] && HasSegment(data, at, segs[0])
    && if |segs| == 1 then Word64(data, at) == 0
       else Word64(data, at) != 0 && HasChain(data, Word64(data, at), segs[1..])
  }

  // -- What the encodings store ------------------------------------------------------------------

  lemma FourBytes(bytes: seq<Byte>)
    requires |bytes| >= 4
    ensures FromLittleEndian(bytes) == Word32(bytes, 0) + 0x1_0000_0000 * FromLittleEndian(bytes[4..])
  {
    assert bytes[1..][1..] == bytes[2..] && bytes[2..][1..] == bytes[3..] && bytes[3..][1..] == bytes[4..];
    assert FromLittleEndian(bytes[3..]) == bytes[3] + 0x100 * FromLittleEndian(bytes[4..]);
    assert FromLittleEndian(bytes[2..]) == bytes[2] + 0x100 * FromLittleEndian(bytes[3..]);
    assert FromLittleEndian(bytes[1..]) == bytes[1] + 0x100 * FromLittleEndian(bytes[2..]);
  }

  lemma HasWord32(data: seq<Byte>, at: nat, n: U32)
    requires At(data, at, U32Bytes(n))
    ensures at + 4 <= |data| && Word32(data, at) == n
  {
    var bytes := U32Bytes(n);
    CapacityOfWords();
    LittleEndianRoundTrip(n, 4);
    FourBytes(bytes);
    assert bytes[4..] == [];
    assert forall k :: 0 <= k < 4 ==> data[at + k] == data[at..at + 4][k] == bytes[k];
  }

  lemma HasWord64(data: seq<Byte>, at: nat, n: U64)
    requires At(data, at, U64Bytes(n))
    ensures at + 8 <= |data| && Word64(data, at) == n
  {
    var bytes := U64Bytes(n);
    CapacityOfWords();
    LittleEndianRoundTrip(n, 8);
    FourBytes(bytes);
    FourBytes(bytes[4..]);
    assert bytes[4..][4..] == [];
    assert forall k :: 0 <= k < 8 ==> data[at + k] == data[at..at + 8][k] == bytes[k];
    assert forall k :: 0 <= k < 4 ==> bytes[4..][k] == bytes[4 + k];
  }

  lemma HasZeroes(data: seq<Byte>, at: nat, n: nat)
    requires At(data, at, Zeros(n))
    ensures ZeroesAt(data, at, at + n)
  {
    assert forall i :: at <= i < at + n ==> data[i] == data[at..at + n][i - at] == 0;
  }

  lemma EncodedHeader(data: seq<Byte>)
    requires At(data, 0, EncodeHeader(Header(One)))
    ensures HasHeader(data)
  {
    AtAppend(data, 0, MAGIC_NUMBER + U32Bytes(1), Zeros(244));
    AtAppend(data, 0, MAGIC_NUMBER, U32Bytes(1));
    HasZeroes(data, 12, 244);
    OneOnFourBytes();
  }

  /** How a header is read: it is accepted if it has the format, and else refused for the first field that is wrong. */
  lemma HeaderDecoded(data: seq<Byte>)
    ensures DecodeHeader(data) ==
            if |data| < 8 then Err(HeaderDecodingError.Io(UnexpectedEof))
            else if data[..8] != [0x42, 0x41, 0x53, 0x49, 0x43, 0x41, 0x52, 0x43]
            then Err(InvalidMagicNumber(Word32(data, 0), 0x4953_4142))
            else if |data| < 12 then Err(HeaderDecodingError.Io(UnexpectedEof))
            else if Word32(data, 8) != 1 then Err(UnknownVersion(Word32(data, 8)))
            else if |data| < 256 then Err(HeaderDecodingError.Io(UnexpectedEof))
            else if ZeroesAt(data, 12, 256) then Ok(Header(One))
            else Err(NonZeroPadding)
  {
    hide FromLittleEndian;
    if |data| >= 8 {
      FirstFour(data, 0);
      FirstFour(MAGIC_NUMBER, 0);
      assert data[..8][..4] == data[..4] && MAGIC_NUMBER[0..4] == MAGIC_NUMBER[..4];
      if |data| >= 12 {
        FirstFour(data, 8);
        PaddingIsZero(data);
      }
    }
  }

  lemma FirstFour(data: seq<Byte>, at: nat)
    requires at + 4 <= |data|
    ensures FromLittleEndian(data[at..at + 4]) == Word32(data, at)
  {
    var four := data[at..at + 4];
    FourBytes(four);
    assert four[4..] == [];
    assert four[0] == data[at] && four[1] == data[at + 1] && four[2] == data[at + 2] && four[3] == data[at + 3];
  }

  lemma PaddingIsZero(data: seq<Byte>)
    ensures |data| >= 256 ==> (data[12..256] == Zeros(244) <==> ZeroesAt(data, 12, 256))
  {
    if |data| >= 256 {
      assert forall i :: 12 <= i < 256 ==> data[i] == data[12..256][i - 12];
      if ZeroesAt(data, 12, 256) {
        assert forall k :: 0 <= k < 244 ==> data[12..256][k] == data[12 + k] == Zeros(244)[k];
      }
    }
  }

  lemma OneOnFourBytes()
    ensures U32Bytes(1) == [1, 0, 0, 0]
  {
    assert LittleEndian(0, 1) == [0] && LittleEndian(0, 2) == [0, 0] && LittleEndian(0, 3) == [0, 0, 0];
  }

  lemma EncodedName(data: seq<Byte>, at: nat, name: Name)
    requires At(data, at, EncodeName(name))
    ensures HasName(data, at, name)
  {
    ValidNameRules(name);
    hide Zeros;
    AtAppend(data, at, [|name|] + name, Zeros(255 - |name|));
    AtAppend(data, at, [|name|], name);
    HasZeroes(data, at + 1 + |name|, 255 - |name|);
    assert data[at] == data[at..at + 1][0];
  }

  lemma EncodedItem(data: seq<Byte>, at: nat, id: Id, parent: DirRef, name: Name, modifTime: U64)
    requires At(data, at, U64Bytes(id) + U64Bytes(RefNumber(parent)) + EncodeName(name) + U64Bytes(modifTime))
    ensures HasItem(data, at, id, parent, name, modifTime)
  {
    hide U64Bytes, EncodeName, At, HasName, Word64;
    var a, b, c, d := U64Bytes(id), U64Bytes(RefNumber(parent)), EncodeName(name), U64Bytes(modifTime);
    AtAppend(data, at, a + b + c, d);
    AtAppend(data, at, a + b, c);
    AtAppend(data, at, a, b);
    HasWord64(data, at, id);
    HasWord64(data, at + 8, RefNumber(parent));
    EncodedName(data, at + 16, name);
    HasWord64(data, at + 272, modifTime);
  }

  /** An encoded directory has each field at its offset. */
  lemma EncodedDir(data: seq<Byte>, at: nat, dir: Directory)
    requires At(data, at, EncodeDir(dir))
    ensures HasDir(data, at, dir)
  {
    EncodedItem(data, at, dir.id, dir.parentDir, dir.name, dir.modifTime);
  }

  /** An encoded file has each field at its offset. */
  lemma EncodedFile(data: seq<Byte>, at: nat, file: File)
    requires At(data, at, EncodeFile(file))
    ensures HasFile(data, at, file)
  {
    hide U64Bytes, EncodeName, At, HasItem, Word64;
    var item := U64Bytes(file.id) + U64Bytes(RefNumber(file.parentDir)) + EncodeName(file.name) + U64Bytes(file.modifTime);
    var a, b := U64Bytes(file.contentAddr), U64Bytes(file.contentLen);
    assert EncodeFile(file) == item + a + b + file.checksum;
    AtAppend(data, at, item + a + b, file.checksum);
    AtAppend(data, at, item + a, b);
    AtAppend(data, at, item, a);
    EncodedItem(data, at, file.id, file.parentDir, file.name, file.modifTime);
    HasWord64(data, at + 280, file.contentAddr);
    HasWord64(data, at + 288, file.contentLen);
    HasBytes(data, at + 296, file.checksum);
  }

  lemma HasBytes(data: seq<Byte>, at: nat, bytes: seq<Byte>)
    requires At(data, at, bytes)
    ensures at + |bytes| <= |data| && data[at..at + |bytes|] == bytes
  {
  }

  /** An encoded segment has its pointer, its capacities and each of its slots at their offsets. */
  lemma EncodedSegment(data: seq<Byte>, at: nat, s: FileTableSegment)
    requires At(data, at, EncodeSegment(s))
    ensures HasSegment(data, at, s)
  {
    hide At, EncodeSegment, DirSlotBytes, FileSlotBytes, HasDirSlot, HasFileSlot, Word32, Word64;
    SegmentFields(data, at, s);
    forall j | 0 <= j < |s.dirs|
      ensures HasDirSlot(data, at + 16 + 280 * j, s.dirs[j])
    {
      DirSlotAt(data, at, s, j);
      EncodedDirSlot(data, at + 16 + 280 * j, s.dirs[j]);
    }
    forall j | 0 <= j < |s.files|
      ensures HasFileSlot(data, at + 16 + 280 * |s.dirs| + 328 * j, s.files[j])
    {
      FileSlotAt(data, at, s, j);
      EncodedFileSlot(data, at + 16 + 280 * |s.dirs| + 328 * j, s.files[j]);
    }
  }

  lemma SegmentFields(data: seq<Byte>, at: nat, s: FileTableSegment)
    requires At(data, at, EncodeSegment(s))
    ensures at + 16 <= |data|
    ensures Word64(data, at) == s.nextSegmentAddr.GetOr(0)
    ensures Word32(data, at + 8) == |s.dirs| && Word32(data, at + 12) == |s.files|
  {
    PartsOf(s);
    hide At, EncodeSegment, Parts, Concat, U64Bytes, U32Bytes, Word32, Word64;
    PartOffset(s, 0);
    PartAt(data, at, s, 0);
    PartOffset(s, 1);
    PartAt(data, at, s, 1);
    HasWord64(data, at, s.nextSegmentAddr.GetOr(0));
    AtAppend(data, at + 8, U32Bytes(|s.dirs|), U32Bytes(|s.files|));
    HasWord32(data, at + 8, |s.dirs|);
    HasWord32(data, at + 12, |s.files|);
  }

  lemma EncodedDirSlot(data: seq<Byte>, at: nat, slot: Option<Directory>)
    requires At(data, at, DirSlotBytes(slot))
    ensures HasDirSlot(data, at, slot)
  {
    hide At, EncodeDir, HasDir, ZeroesAt;
    if slot.Some? {
      EncodedDir(data, at, slot.value);
    } else {
      HasZeroes(data, at, 280);
    }
  }

  lemma EncodedFileSlot(data: seq<Byte>, at: nat, slot: Option<File>)
    requires At(data, at, FileSlotBytes(slot))
    ensures HasFileSlot(data, at, slot)
  {
    hide At, EncodeFile, HasFile, ZeroesAt;
    if slot.Some? {
      EncodedFile(data, at, slot.value);
    } else {
      HasZeroes(data, at, 328);
    }
  }

  // -- What a valid archive stores ---------------------------------------------------------------

  /**
   * The disk of a valid archive: header, chain of segments, and for each live file its content, where its entry says,
   * with the digest that its entry has.
   */
  lemma ArchiveFormat(st: State, sha3: Hash)
    requires Inv(st, sha3)
    ensures HasHeader(st.disk) && HasChain(st.disk, 256, st.segs)
    ensures forall id :: id in st.files ==>
              var file := st.files[id];
              && file.contentAddr + file.contentLen <= |st.disk|
              && sha3(st.disk[file.contentAddr..file.contentAddr + file.contentLen]) == file.checksum
  {
    hide Inv, HasHeader, HasChain, OnDisk, TableShape;
    StoredTable(st, sha3);
    forall id | id in st.files
      ensures st.files[id].contentAddr + st.files[id].contentLen <= |st.disk|
      ensures sha3(Blob(st.disk, st.files[id])) == st.files[id].checksum
    {
      StoredContent(st, sha3, id);
    }
  }

  lemma StoredTable(st: State, sha3: Hash)
    requires Inv(st, sha3)
    ensures HasHeader(st.disk) && HasChain(st.disk, 256, st.segs)
  {
    InvParts(st, sha3);
    hide Inv, SlotsMatch, TreeOk, Group, Tracks, Layout, DigestsMatch, HasHeader, HasChain, EncodeSegment, EncodeHeader;
    EncodedHeader(st.disk);
    ChainFrom(st.disk, st.segs, 0);
    assert st.segs[0..] == st.segs;
  }

  lemma StoredContent(st: State, sha3: Hash, id: Id)
    requires Inv(st, sha3) && id in st.files
    ensures st.files[id].contentAddr + st.files[id].contentLen <= |st.disk|
    ensures sha3(Blob(st.disk, st.files[id])) == st.files[id].checksum
  {
    InvParts(st, sha3);
    hide Inv, SlotsMatch, TreeOk, Group, Tracks, OnDisk, TableShape;
    assert ExtentOf(st.segs, st.files, BlobOwner(id)) == BlobExtent(st.files[id]);
  }

  lemma {:induction false} ChainFrom(data: seq<Byte>, segs: Segs, i: nat)
    requires TableShape(segs) && OnDisk(data, segs) && i < |segs|
    ensures HasChain(data, SegmentAddr(segs, i), segs[i..])
    decreases |segs| - i
  {
    hide EncodeSegment, EncodeHeader, At, HasSegment;
    EncodedSegment(data, SegmentAddr(segs, i), segs[i]);
    NextPointer(data, SegmentAddr(segs, i), segs[i]);
    assert segs[i..][0] == segs[i] && segs[i..][1..] == segs[i + 1..];
    if i < |segs| - 1 {
      ChainFrom(data, segs, i + 1);
    }
  }

  lemma NextPointer(data: seq<Byte>, at: nat, s: FileTableSegment)
    requires HasSegment(data, at, s)
    ensures at + 16 <= |data| && Word64(data, at) == s.nextSegmentAddr.GetOr(0)
  {
  }

  // -- How bytes are read ------------------------------------------------------------------------

  /** A length of zero, bytes that are no UTF-8, and strings that are no names are refused, in this order. */
  lemma NameDecoded(field: seq<Byte>)
    requires |field| == 256
    ensures field[0] == 0 ==> DecodeName(field) == Err(NameValidationFailed(NameIsEmpty))
    ensures field[0] > 0 ==>
              var name := field[1..field[0] + 1];
              && (!Utf8(name) <==> DecodeName(field) == Err(InvalidUtf8))
              && (Utf8(name) && ValidName(name) <==> DecodeName(field) == Ok(name))
              && (Utf8(name) ==>
                    forall error :: DecodeName(field) == Err(NameValidationFailed(error)) <==> Refuses(name, error))
  {
    hide Utf8, Refuses;
    if field[0] > 0 && Utf8(field[1..field[0] + 1]) {
      NewNameRefused(field[1..field[0] + 1]);
    }
  }

  function NumberedRef(n: nat): DirRef
    requires n < U64_LIMIT
  {
    if n == 0 then Root else NonRoot(n)
  }

  lemma WordsRead(data: seq<Byte>, at: nat)
    ensures ReadU64At(data, at) == if at + 8 > |data| then Err(UnexpectedEof) else Ok(Word64(data, at))
    ensures ReadU32At(data, at) == if at + 4 > |data| then Err(UnexpectedEof) else Ok(Word32(data, at))
  {
    hide FromLittleEndian;
    if at + 4 <= |data| {
      FirstFour(data, at);
    }
    if at + 8 <= |data| {
      FirstFour(data, at + 4);
      var eight := data[at..at + 8];
      FourBytes(eight);
      assert eight[4..] == data[at + 4..at + 8];
      assert eight[0] == data[at] && eight[1] == data[at + 1] && eight[2] == data[at + 2] && eight[3] == data[at + 3];
    }
  }

  /** How a directory slot is read: an identifier of zero means that it is empty, whatever follows. */
  lemma DirDecoded(data: seq<Byte>, at: nat)
    ensures DecodeDir(data, at) ==
            if at + 8 > |data| then Err(InvalidEntry(UnexpectedEof))
            else if Word64(data, at) == 0 then Ok(None)
            else if at + 272 > |data| then Err(InvalidEntry(UnexpectedEof))
            else
              match DecodeName(data[at + 16..at + 272])
              case Err(error) => Err(InvalidName(error))
              case Ok(name) =>
                if at + 280 > |data| then Err(InvalidEntry(UnexpectedEof))
                else Ok(Some(Directory(Word64(data, at), NumberedRef(Word64(data, at + 8)), name, Word64(data, at + 272))))
  {
    hide DecodeName, Word64, Word32, ReadU64At;
    WordsRead(data, at);
    WordsRead(data, at + 8);
    WordsRead(data, at + 272);
  }

  /** How a file slot is read. */
  lemma FileDecoded(data: seq<Byte>, at: nat)
    ensures DecodeFile(data, at) ==
            if at + 8 > |data| then Err(InvalidEntry(UnexpectedEof))
            else if Word64(data, at) == 0 then Ok(None)
            else if at + 272 > |data| then Err(InvalidEntry(UnexpectedEof))
            else
              match DecodeName(data[at + 16..at + 272])
              case Err(error) => Err(InvalidName(error))
              case Ok(name) =>
                if at + 328 > |data| then Err(InvalidEntry(UnexpectedEof))
                else Ok(Some(File(Word64(data, at), NumberedRef(Word64(data, at + 8)), name, Word64(data, at + 272),
                                  Word64(data, at + 280), Word64(data, at + 288), data[at + 296..at + 328])))
  {
    hide DecodeName, Word64, Word32, ReadU64At;
    WordsRead(data, at);
    WordsRead(data, at + 8);
    WordsRead(data, at + 272);
    WordsRead(data, at + 280);
    WordsRead(data, at + 288);
  }

  /** The directory slots before the `j`-th one can be read. */
  ghost predicate DirsReadable(data: seq<Byte>, at: nat, j: nat) {
    forall i :: 0 <= i < j ==> DecodeDir(data, at + 280 * i).Ok?
  }

  ghost predicate FilesReadable(data: seq<Byte>, at: nat, j: nat) {
    forall i :: 0 <= i < j ==> DecodeFile(data, at + 328 * i).Ok?
  }

  /** The first of `n` slots that cannot be read is the one at `addr`. */
  ghost predicate FirstBadDir(data: seq<Byte>, at: nat, n: nat, addr: nat, error: EntryDecodingError) {
    exists j :: 0 <= j < n && addr == at + 280 * j && DirsReadable(data, at, j) && DecodeDir(data, addr) == Err(error)
  }

  ghost predicate FirstBadFile(data: seq<Byte>, at: nat, n: nat, addr: nat, error: EntryDecodingError) {
    exists j :: 0 <= j < n && addr == at + 328 * j && FilesReadable(data, at, j) && DecodeFile(data, addr) == Err(error)
  }

  /** How a segment is read: slot by slot, or up to the first slot that cannot be read, which is told with its address. */
  lemma SegmentDecoded(data: seq<Byte>, at: nat)
    ensures DecodeSegment(data, at) == Err(InvalidHeader(UnexpectedEof)) <==> at + 16 > |data|
    ensures at + 16 <= |data| ==>
              var next, dirs, files := Word64(data, at), Word32(data, at + 8), Word32(data, at + 12);
              match DecodeSegment(data, at)
              case Ok(s) =>
                && s.nextSegmentAddr == (if next == 0 then None else Some(next)) && |s.dirs| == dirs && |s.files| == files
                && (forall j :: 0 <= j < dirs ==> DecodeDir(data, at + 16 + 280 * j) == Ok(s.dirs[j]))
                && (forall j :: 0 <= j < files ==> DecodeFile(data, at + 16 + 280 * dirs + 328 * j) == Ok(s.files[j]))
              case Err(InvalidDirectoryEntry(addr, error)) =>
                FirstBadDir(data, at + 16, dirs, addr, error)
              case Err(InvalidFileEntry(addr, error)) =>
                DirsReadable(data, at + 16, dirs) && FirstBadFile(data, at + 16 + 280 * dirs, files, addr, error)
              case Err(InvalidHeader(_)) => false
  {
    hide DecodeDir, DecodeFile, DecodeDirs, DecodeFiles, ReadU64At, ReadU32At, Word64, Word32;
    WordsRead(data, at);
    WordsRead(data, at + 8);
    WordsRead(data, at + 12);
    if at + 16 <= |data| {
      DirsDecoded(data, at + 16, Word32(data, at + 8));
      if DecodeDirs(data, at + 16, Word32(data, at + 8)).Ok? {
        AllDirsReadable(data, at + 16, Word32(data, at + 8));
      }
      FilesDecoded(data, at + 16 + 280 * Word32(data, at + 8), Word32(data, at + 12));
    }
  }

  lemma {:induction false} AllDirsReadable(data: seq<Byte>, at: nat, n: nat)
    requires DecodeDirs(data, at, n).Ok?
    ensures DirsReadable(data, at, n)
  {
    hide DecodeDir;
    if n > 0 {
      AllDirsReadable(data, at, n - 1);
    }
  }

  lemma {:induction false} AllFilesReadable(data: seq<Byte>, at: nat, n: nat)
    requires DecodeFiles(data, at, n).Ok?
    ensures FilesReadable(data, at, n)
  {
    hide DecodeFile;
    if n > 0 {
      AllFilesReadable(data, at, n - 1);
    }
  }

  lemma {:induction false} DirsDecoded(data: seq<Byte>, at: nat, n: nat)
    ensures match DecodeDirs(data, at, n)
            case Ok(slots) => |slots| == n && forall j :: 0 <= j < n ==> DecodeDir(data, at + 280 * j) == Ok(slots[j])
            case Err(error) => error.InvalidDirectoryEntry? && FirstBadDir(data, at, n, error.entryAddr, error.entry)
  {
    hide DecodeDir;
    if n > 0 {
      DirsDecoded(data, at, n - 1);
      if DecodeDirs(data, at, n - 1).Ok? {
        AllDirsReadable(data, at, n - 1);
      }
    }
  }

  lemma {:induction false} FilesDecoded(data: seq<Byte>, at: nat, n: nat)
    ensures match DecodeFiles(data, at, n)
            case Ok(slots) => |slots| == n && forall j :: 0 <= j < n ==> DecodeFile(data, at + 328 * j) == Ok(slots[j])
            case Err(error) => error.InvalidFileEntry? && FirstBadFile(data, at, n, error.entryAddr, error.entry)
  {
    hide DecodeFile;
    if n > 0 {
      FilesDecoded(data, at, n - 1);
      if DecodeFiles(data, at, n - 1).Ok? {
        AllFilesReadable(data, at, n - 1);
      }
    }
  }
}
