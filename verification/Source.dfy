/** The positioned byte store that archives are read from and written to. */
module Sources {
  import opened Wrappers
  import opened Bytes

  datatype IoError = UnexpectedEof

  /** What an exact read of `len` bytes at `pos` returns. */
  function ReadAt(data: seq<Byte>, pos: nat, len: nat): (r: Result<seq<Byte>, IoError>)
    ensures r.Ok? ==> |r.value| == len
  {
    if len == 0 then Ok([])
    else if pos + len <= |data| then Ok(data[pos..pos + len])
    else Err(UnexpectedEof)
  }

  function ReadU64At(data: seq<Byte>, pos: nat): Result<U64, IoError> {
    var bytes :- ReadAt(data, pos, 8);
    FromLittleEndianBound(bytes);
    CapacityOfWords();
    Ok(FromLittleEndian(bytes))
  }

  function ReadU32At(data: seq<Byte>, pos: nat): Result<U32, IoError> {
    var bytes :- ReadAt(data, pos, 4);
    FromLittleEndianBound(bytes);
    CapacityOfWords();
    Ok(FromLittleEndian(bytes))
  }

  /** An integer that was stored is the integer that is read back. */
  lemma ReadsStoredU64(data: seq<Byte>, pos: nat, n: U64)
    requires At(data, pos, U64Bytes(n))
    ensures ReadU64At(data, pos) == Ok(n)
  {
    CapacityOfWords();
    LittleEndianRoundTrip(n, 8);
  }

  lemma ReadsStoredU32(data: seq<Byte>, pos: nat, n: U32)
    requires At(data, pos, U32Bytes(n))
    ensures ReadU32At(data, pos) == Ok(n)
  {
    CapacityOfWords();
    LittleEndianRoundTrip(n, 4);
  }

  class Source {
    var data: seq<Byte>
    var pos: nat

    constructor (data: seq<Byte>)
      ensures this.data == data && pos == 0
    {
      this.data := data;
      pos := 0;
    }

    method SetPosition(target: nat)
      modifies this`pos
      ensures pos == target
    {
      pos := target;
    }

    /** Skips bytes; like any seek, it may go past the end. */
    method Advance(count: nat)
      modifies this`pos
      ensures pos == old(pos) + count
    {
      pos := pos + count;
    }

    /** The length of the stream, found by seeking to its end and back. */
    method SeekLen() returns (len: nat)
      modifies this`pos
      ensures len == |data| && pos == old(pos)
    {
      var oldPos := pos;
      SetPosition(|data|);
      len := pos;
      SetPosition(oldPos);
    }

    /** Reads exactly `len` bytes; a read that fails has used up what was left, and where it stops is not promised. */
    method ReadExact(len: nat) returns (r: Result<seq<Byte>, IoError>)
      modifies this`pos
      ensures r == ReadAt(data, old(pos), len)
      ensures r.Ok? ==> pos == old(pos) + len
    {
      r := ReadAt(data, pos, len);
      pos := if r.Ok? then pos + len else if pos < |data| then |data| else pos;
    }

    method ReadU64() returns (r: Result<U64, IoError>)
      modifies this`pos
      ensures r == ReadU64At(data, old(pos))
      ensures r.Ok? ==> pos == old(pos) + 8
    {
      var bytes :- ReadExact(8);
      FromLittleEndianBound(bytes);
      CapacityOfWords();
      r := Ok(FromLittleEndian(bytes));
    }

    method ReadU32() returns (r: Result<U32, IoError>)
      modifies this`pos
      ensures r == ReadU32At(data, old(pos))
      ensures r.Ok? ==> pos == old(pos) + 4
    {
      var bytes :- ReadExact(4);
      FromLittleEndianBound(bytes);
      CapacityOfWords();
      r := Ok(FromLittleEndian(bytes));
    }

    method WriteAll(bytes: seq<Byte>)
      modifies this
      ensures data == Write(old(data), old(pos), bytes)
      ensures pos == old(pos) + |bytes|
    {
      data := Write(data, pos, bytes);
      pos := pos + |bytes|;
    }
  }
}
