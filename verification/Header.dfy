/** The 256-byte header: a magic number, a version, and zeroes. */
module Headers {
  import opened Wrappers
  import opened Bytes
  import opened Sources

  const HEADER_SIZE := 256

  /** "BASICARC" in ASCII. */
  const MAGIC_NUMBER: seq<Byte> := [0x42, 0x41, 0x53, 0x49, 0x43, 0x41, 0x52, 0x43]

  datatype ArchiveVersion = One {
    function Number(): U32 {
      1
    }
  }

  datatype Header = Header(version: ArchiveVersion)

  datatype HeaderDecodingError =
    | Io(io: IoError)
    | InvalidMagicNumber(got: nat, expected: nat)
    | NonZeroPadding
    | UnknownVersion(input: U32)

  function DecodeVersion(input: U32): Result<ArchiveVersion, HeaderDecodingError> {
    if input == 1 then Ok(One) else Err(UnknownVersion(input))
  }

  /** Reports the first half of what was read, and of what should have been there, as numbers. */
  function WrongMagic(magic: seq<Byte>): HeaderDecodingError
    requires |magic| == 8
  {
    InvalidMagicNumber(FromLittleEndian(magic[..4]), FromLittleEndian(MAGIC_NUMBER[..4]))
  }

  function EncodeHeader(header: Header): (bytes: seq<Byte>)
    ensures |bytes| == HEADER_SIZE
  {
    MAGIC_NUMBER + U32Bytes(header.version.Number()) + Zeros(244)
  }

  function AsHeaderError<T>(r: Result<T, IoError>): Result<T, HeaderDecodingError> {
    match r
    case Ok(value) => Ok(value)
    case Err(error) => Err(Io(error))
  }

  function DecodeHeader(data: seq<Byte>): Result<Header, HeaderDecodingError> {
    var magic :- AsHeaderError(ReadAt(data, 0, 8));
    if magic != MAGIC_NUMBER then Err(WrongMagic(magic))
    else
      var number :- AsHeaderError(ReadU32At(data, 8));
      var version :- DecodeVersion(number);
      var padding :- AsHeaderError(ReadAt(data, 12, 244));
      if padding != Zeros(244) then Err(NonZeroPadding) else Ok(Header(version))
  }

  /** A header is accepted if and only if it is, byte for byte, the one that is written. */
  lemma HeaderAcceptedIffEncoded(data: seq<Byte>, header: Header)
    ensures DecodeHeader(data) == Ok(header) <==> At(data, 0, EncodeHeader(header))
    ensures DecodeHeader(data).Ok? <==> At(data, 0, EncodeHeader(Header(One)))
  {
    hide U32Bytes, ReadU32At, ReadAt, Zeros, At;
    assert header.version == One && header == Header(One);
    AtAppend(data, 0, MAGIC_NUMBER + U32Bytes(1), Zeros(244));
    AtAppend(data, 0, MAGIC_NUMBER, U32Bytes(1));
    VersionField(data);
    StoredIffRead(data, 0, MAGIC_NUMBER);
    StoredIffRead(data, 12, Zeros(244));
  }

  lemma StoredIffRead(data: seq<Byte>, pos: nat, bytes: seq<Byte>)
    requires bytes != []
    ensures At(data, pos, bytes) <==> ReadAt(data, pos, |bytes|) == Ok(bytes)
  {
  }

  lemma VersionField(data: seq<Byte>)
    ensures At(data, 8, U32Bytes(1)) <==> ReadU32At(data, 8) == Ok(1)
  {
    if At(data, 8, U32Bytes(1)) {
      ReadsStoredU32(data, 8, 1);
    }
    if ReadU32At(data, 8) == Ok(1) {
      FromLittleEndianRoundTrip(data[8..12]);
    }
  }

  /** Reads the header from the start of the source and leaves the position behind it. */
  method Decode(source: Source) returns (r: Result<Header, HeaderDecodingError>)
    modifies source`pos
    ensures r == DecodeHeader(source.data)
    ensures r.Ok? ==> source.pos == HEADER_SIZE
  {
    source.SetPosition(0);
    var magicRead := source.ReadExact(8);
    var magic :- AsHeaderError(magicRead);
    if magic != MAGIC_NUMBER {
      return Err(WrongMagic(magic));
    }
    var numberRead := source.ReadU32();
    var number :- AsHeaderError(numberRead);
    var version :- DecodeVersion(number);
    var paddingLen := HEADER_SIZE - source.pos;
    var paddingRead := source.ReadExact(paddingLen);
    var padding :- AsHeaderError(paddingRead);
    if exists k :: 0 <= k < |padding| && padding[k] != 0 {
      assert padding != Zeros(244);
      return Err(NonZeroPadding);
    }
    assert padding == Zeros(244);
    r := Ok(Header(version));
  }

  method Encode(header: Header) returns (bytes: seq<Byte>)
    ensures bytes == EncodeHeader(header)
  {
    bytes := [];
    bytes := bytes + MAGIC_NUMBER;
    bytes := bytes + U32Bytes(header.version.Number());
    bytes := bytes + Zeros(256 - |bytes|);
  }
}
