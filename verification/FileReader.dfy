/** Reading the content of a file, piece by piece, with a digest that is checked after the last byte. */
module FileReaders {
  import opened Wrappers
  import opened Bytes
  import opened Sources
  import opened Entries
  import opened States

  datatype FileReaderError = Io(io: IoError) | ChecksumMismatch

  /** What reading on to the end of a file returns, however it is cut; nothing is checked if nothing is left. */
  function RestOfFile(data: seq<Byte>, start: nat, len: nat, pos: nat, expected: Digest, sha3: Hash)
    : Result<seq<Byte>, FileReaderError>
  {
    if pos >= len then Ok([])
    else if start + len > |data| then Err(Io(UnexpectedEof))
    else if sha3(data[start..start + len]) != expected then Err(ChecksumMismatch)
    else Ok(data[start + pos..start + len])
  }

  /** How many bytes one read is about. */
  function Count(len: nat, pos: nat, size: nat): (count: nat)
    requires pos <= len
  {
    if size < len - pos then size else len - pos
  }

  /** The result of a read, or of several, that should go on from `pos` to `goal`: the digest is checked at the end. */
  function ReadResult(data: seq<Byte>, start: nat, len: nat, pos: nat, goal: nat, expected: Digest, sha3: Hash)
    : Result<(), FileReaderError>
  {
    if goal <= pos then Ok(())
    else if start + goal > |data| then Err(Io(UnexpectedEof))
    else if goal == len && sha3(data[start..start + len]) != expected then Err(ChecksumMismatch)
    else Ok(())
  }

  function Part(data: seq<Byte>, low: nat, high: nat): seq<Byte> {
    if low <= high <= |data| then data[low..high] else []
  }

  lemma PartMore(data: seq<Byte>, low: nat, mid: nat, high: nat)
    requires low <= mid <= high <= |data|
    ensures Part(data, low, mid) + Part(data, mid, high) == Part(data, low, high)
    ensures |Part(data, mid, high)| == high - mid
  {
    JoinSlices(data, low, mid, high);
  }

  lemma NoPart(data: seq<Byte>, at: nat)
    ensures Part(data, at, at) == []
  {
  }

  /** What a read gives to the digest, and what is in the digest when the end is reached. */
  lemma DigestMore(data: seq<Byte>, start: nat, pos: nat, count: nat)
    requires start + pos + count <= |data| && count > 0
    ensures ReadAt(data, start + pos, count) == Ok(Part(data, start + pos, start + pos + count))
    ensures Part(data, start, start + pos) + Part(data, start + pos, start + pos + count) ==
            Part(data, start, start + pos + count) == data[start..start + pos + count]
  {
    PartMore(data, start, start + pos, start + pos + count);
  }

  class FileReader {
    const source: Source
    const len: nat
    const expectedChecksum: Digest
    const sha3: Hash
    ghost const start: nat
    var pendingChecksum: seq<Byte>
    var pos: nat

    /** Everything read so far has been given to the digest, and the source stands right behind it. */
    ghost predicate Valid()
      reads this, source
    {
      && pos <= len
      && source.pos == start + pos
      && (pos > 0 ==> start + pos <= |source.data|)
      && pendingChecksum == Part(source.data, start, start + pos)
    }

    constructor (source: Source, len: nat, expectedChecksum: Digest, sha3: Hash)
      ensures Valid() && pos == 0 && start == source.pos
      ensures this.source == source && this.len == len
      ensures this.expectedChecksum == expectedChecksum && this.sha3 == sha3
    {
      this.source, this.len, this.expectedChecksum, this.sha3 := source, len, expectedChecksum, sha3;
      start := source.pos;
      pendingChecksum := [];
      pos := 0;
    }

    /**
     * Fills the front of the buffer with the next bytes of the file. If the source ends too early, neither the buffer
     * nor the reader can be relied upon any more.
     */
    method Read(buf: array<Byte>) returns (r: Result<nat, FileReaderError>)
      requires Valid()
      modifies this, source`pos, buf
      ensures var goal := old(pos) + Count(len, old(pos), buf.Length);
              var result := ReadResult(source.data, start, len, old(pos), goal, expectedChecksum, sha3);
              && r == (if result.Ok? then Ok(goal - old(pos)) else Err(result.error))
              && (result != Err(Io(UnexpectedEof)) ==>
                    && Valid() && pos == goal
                    && buf[..] == Part(source.data, start + old(pos), start + goal) + old(buf[..])[goal - old(pos)..])
      ensures old(pos) == len || buf.Length == 0 ==> r == Ok(0)
      ensures 0 < buf.Length < len - old(pos) && start + old(pos) + buf.Length <= |source.data| ==>
                r == Ok(buf.Length) && buf[..] == source.data[start + old(pos)..start + old(pos) + buf.Length]
      ensures 0 < len - old(pos) <= buf.Length && start + len <= |source.data| ==>
                && r == (if sha3(source.data[start..start + len]) == expectedChecksum then Ok(len - old(pos))
                         else Err(ChecksumMismatch))
                && buf[..len - old(pos)] == source.data[start + old(pos)..start + len]
    {
      hide Part, ReadResult, Count;
      ReadMeans(source.data, start, len, pos, buf.Length, expectedChecksum, sha3);
      r := ReadNext(buf);
    }

    method ReadNext(buf: array<Byte>) returns (r: Result<nat, FileReaderError>)
      requires Valid()
      modifies this, source`pos, buf
      ensures var goal := old(pos) + Count(len, old(pos), buf.Length);
              var result := ReadResult(source.data, start, len, old(pos), goal, expectedChecksum, sha3);
              && r == (if result.Ok? then Ok(goal - old(pos)) else Err(result.error))
              && (result != Err(Io(UnexpectedEof)) ==>
                    && Valid() && pos == goal
                    && buf[..] == Part(source.data, start + old(pos), start + goal) + old(buf[..])[goal - old(pos)..])
    {
      hide Part, ReadAt, ReadResult;
      ReadMeans(source.data, start, len, pos, buf.Length, expectedChecksum, sha3);
      NoPart(source.data, start + pos);
      var readLen := if buf.Length < len - pos then buf.Length else len - pos;
      if readLen == 0 {
        return Ok(0);
      }
      var read := source.ReadExact(readLen);
      if read.Err? {
        ShortRead(source.data, start + pos, readLen);
        return Err(Io(read.error));
      }
      var bytes := read.value;
      LongRead(source.data, start + pos, readLen);
      DigestMore(source.data, start, pos, readLen);
      Fill(buf, bytes);
      pendingChecksum := pendingChecksum + bytes;
      pos := pos + readLen;
      if pos == len {
        var hash := sha3(pendingChecksum);
        if hash != expectedChecksum {
          return Err(ChecksumMismatch);
        }
      }
      r := Ok(readLen);
    }

    /** One read with a buffer of its own. */
    method ReadSome(size: nat) returns (r: Result<seq<Byte>, FileReaderError>)
      requires Valid()
      modifies this, source`pos
      ensures var goal := old(pos) + Count(len, old(pos), size);
              var result := ReadResult(source.data, start, len, old(pos), goal, expectedChecksum, sha3);
              && r == (if result.Ok? then Ok(Part(source.data, start + old(pos), start + goal)) else Err(result.error))
              && (result != Err(Io(UnexpectedEof)) ==> Valid() && pos == goal)
    {
      hide Part;
      var buf := new Byte[size](_ => 0);
      ghost var goal := pos + Count(len, pos, size);
      PartSize(source.data, start, pos, goal);
      var count := Read(buf);
      if count.Err? {
        return Err(count.error);
      }
      r := Ok(buf[..count.value]);
    }

    /**
     * Reads with buffers of the given sizes, up to the first error. Whatever the sizes, and even if the source is too
     * short, what comes out is the next part of the file; the result depends on how far the sizes go together.
     */
    method ReadInChunks(sizes: seq<nat>) returns (bytes: seq<Byte>, r: Result<(), FileReaderError>)
      requires Valid()
      modifies this, source`pos
      ensures r == ReadResult(source.data, start, len, old(pos), Advanced(old(pos), len, sizes), expectedChecksum, sha3)
      ensures bytes == Part(source.data, start + old(pos), start + old(pos) + |bytes|)
      ensures r.Ok? ==> Valid() && pos == Advanced(old(pos), len, sizes) == old(pos) + |bytes|
      ensures old(pos) + Sum(sizes) < len && start + old(pos) + Sum(sizes) <= |source.data| ==>
                r.Ok? && bytes == source.data[start + old(pos)..start + old(pos) + Sum(sizes)]
      ensures old(pos) < len <= old(pos) + Sum(sizes) && start + len <= |source.data| ==>
                && r == (if sha3(source.data[start..start + len]) == expectedChecksum then Ok(()) else Err(ChecksumMismatch))
                && (r.Ok? ==> bytes == source.data[start + old(pos)..start + len])
    {
      hide Part, Advanced, ReadResult, Sum;
      ChunksMean(source.data, start, len, pos, sizes, expectedChecksum, sha3);
      bytes, r := ReadEach(sizes);
    }

    method ReadEach(sizes: seq<nat>) returns (bytes: seq<Byte>, r: Result<(), FileReaderError>)
      requires Valid()
      modifies this, source`pos
      ensures r == ReadResult(source.data, start, len, old(pos), Advanced(old(pos), len, sizes), expectedChecksum, sha3)
      ensures bytes == Part(source.data, start + old(pos), start + old(pos) + |bytes|)
      ensures r.Ok? ==> Valid() && pos == Advanced(old(pos), len, sizes) == old(pos) + |bytes|
    {
      hide Part, Advanced, ReadResult;
      bytes := [];
      ghost var first, goal := pos, Advanced(pos, len, sizes);
      assert sizes[0..] == sizes;
      NoPart(source.data, start + pos);
      ReadNothing(source.data, start, len, pos, expectedChecksum, sha3);
      for i := 0 to |sizes|
        invariant Valid() && goal == Advanced(pos, len, sizes[i..])
        invariant first <= pos && |bytes| == pos - first && bytes == Part(source.data, start + first, start + pos)
        invariant ReadResult(source.data, start, len, first, pos, expectedChecksum, sha3) == Ok(())
      {
        ghost var next := pos + Count(len, pos, sizes[i]);
        AdvancedNext(pos, len, sizes, i);
        OneMoreRead(source.data, start, len, first, pos, next, goal, expectedChecksum, sha3);
        var chunk := ReadSome(sizes[i]);
        if chunk.Err? {
          return bytes, Err(chunk.error);
        }
        bytes := bytes + chunk.value;
      }
      AdvancedNothing(pos, len, sizes[|sizes|..]);
      r := Ok(());
    }

    /** Reads to the end, with buffers of any size, and returns all that was left. */
    method ReadToVec() returns (r: Result<seq<Byte>, FileReaderError>)
      requires Valid()
      modifies this, source`pos
      ensures r == RestOfFile(source.data, start, len, old(pos), expectedChecksum, sha3)
      ensures old(pos) == len ==> r == Ok([])
      ensures old(pos) < len && start + len <= |source.data| ==>
                r == if sha3(source.data[start..start + len]) == expectedChecksum
                     then Ok(source.data[start + old(pos)..start + len]) else Err(ChecksumMismatch)
      ensures old(pos) < len && start + len > |source.data| ==> r == Err(Io(UnexpectedEof))
    {
      hide Part, ReadResult, RestOfFile;
      var content := [];
      ghost var first := pos;
      NoPart(source.data, start + pos);
      ReadNothing(source.data, start, len, pos, expectedChecksum, sha3);
      RestMeans(source.data, start, len, pos, expectedChecksum, sha3);
      while true
        invariant Valid() && first <= pos
        invariant content == Part(source.data, start + first, start + pos)
        invariant ReadResult(source.data, start, len, first, pos, expectedChecksum, sha3) == Ok(())
        decreases len - pos
      {
        var size: nat :| size > 0;
        ghost var next := pos + Count(len, pos, size);
        OneMoreRead(source.data, start, len, first, pos, next, len, expectedChecksum, sha3);
        LastRead(source.data, start, len, first, pos, expectedChecksum, sha3);
        var chunk := ReadSome(size);
        if chunk.Err? {
          return Err(chunk.error);
        }
        if chunk.value == [] {
          return Ok(content);
        }
        content := content + chunk.value;
      }
    }
  }

  method Fill(buf: array<Byte>, bytes: seq<Byte>)
    requires |bytes| <= buf.Length
    modifies buf
    ensures buf[..] == bytes + old(buf[..])[|bytes|..]
  {
    forall i | 0 <= i < |bytes| {
      buf[i] := bytes[i];
    }
  }

  /** One read: in the middle of the file nothing is checked, at the end the digest is. */
  lemma ReadMeans(data: seq<Byte>, start: nat, len: nat, pos: nat, size: nat, expected: Digest, sha3: Hash)
    requires pos <= len
    ensures var goal := pos + Count(len, pos, size);
            && (pos == len || size == 0 ==> goal == pos)
            && (size < len - pos ==> goal == pos + size)
            && (len - pos <= size ==> goal == len)
            && (start + goal <= |data| ==> Part(data, start + pos, start + goal) == data[start + pos..start + goal])
            && (goal > pos && start + goal > |data| ==>
                  ReadResult(data, start, len, pos, goal, expected, sha3) == Err(Io(UnexpectedEof)))
            && (goal == pos || (goal < len && start + goal <= |data|) ==>
                  ReadResult(data, start, len, pos, goal, expected, sha3) == Ok(()))
            && (pos < len == goal && start + len <= |data| ==>
                  ReadResult(data, start, len, pos, goal, expected, sha3) ==
                  if sha3(data[start..start + len]) == expected then Ok(()) else Err(ChecksumMismatch))
  {
  }

  lemma RestMeans(data: seq<Byte>, start: nat, len: nat, pos: nat, expected: Digest, sha3: Hash)
    ensures var r := RestOfFile(data, start, len, pos, expected, sha3);
            && (pos == len ==> r == Ok([]))
            && (pos < len && start + len <= |data| ==>
                  r == if sha3(data[start..start + len]) == expected then Ok(data[start + pos..start + len])
                       else Err(ChecksumMismatch))
            && (pos < len && start + len > |data| ==> r == Err(Io(UnexpectedEof)))
  {
  }

  lemma ChunksMean(data: seq<Byte>, start: nat, len: nat, pos: nat, sizes: seq<nat>, expected: Digest, sha3: Hash)
    requires pos <= len
    ensures var goal := if pos + Sum(sizes) < len then pos + Sum(sizes) else len;
            && Advanced(pos, len, sizes) == goal
            && (start + goal <= |data| ==> Part(data, start + pos, start + goal) == data[start + pos..start + goal])
            && (start + goal <= |data| && (goal < len || goal == pos) ==>
                  ReadResult(data, start, len, pos, goal, expected, sha3) == Ok(()))
            && (start + len <= |data| && pos < len == goal ==>
                  ReadResult(data, start, len, pos, goal, expected, sha3) ==
                  if sha3(data[start..start + len]) == expected then Ok(()) else Err(ChecksumMismatch))
  {
    AdvancedIsSum(pos, len, sizes);
  }

  lemma ShortRead(data: seq<Byte>, pos: nat, count: nat)
    requires ReadAt(data, pos, count).Err?
    ensures pos + count > |data| && ReadAt(data, pos, count) == Err(UnexpectedEof)
  {
  }

  lemma LongRead(data: seq<Byte>, pos: nat, count: nat)
    requires ReadAt(data, pos, count).Ok? && count > 0
    ensures pos + count <= |data|
  {
  }

  lemma PartSize(data: seq<Byte>, start: nat, pos: nat, goal: nat)
    requires pos <= goal
    ensures start + goal <= |data| || goal == pos ==> |Part(data, start + pos, start + goal)| == goal - pos
  {
  }

  lemma ReadNothing(data: seq<Byte>, start: nat, len: nat, pos: nat, expected: Digest, sha3: Hash)
    ensures ReadResult(data, start, len, pos, pos, expected, sha3) == Ok(())
  {
  }

  /** A read in the middle of a run of reads: it fails as the whole run does, or brings the run one step further. */
  lemma OneMoreRead(data: seq<Byte>, start: nat, len: nat, first: nat, pos: nat, next: nat, goal: nat,
                    expected: Digest, sha3: Hash)
    requires first <= pos <= next <= goal <= len && (pos > 0 ==> start + pos <= |data|)
    requires ReadResult(data, start, len, first, pos, expected, sha3).Ok?
    ensures var step := ReadResult(data, start, len, pos, next, expected, sha3);
            && (step.Err? ==> step == ReadResult(data, start, len, first, goal, expected, sha3))
            && (step.Ok? ==> ReadResult(data, start, len, first, next, expected, sha3) == Ok(())
                             && Part(data, start + first, start + pos) + Part(data, start + pos, start + next) ==
                                Part(data, start + first, start + next)
                             && |Part(data, start + pos, start + next)| == next - pos)
  {
    NoPart(data, start + pos);
    if pos < next && start + next <= |data| {
      PartMore(data, start + first, start + pos, start + next);
    }
  }

  /** The result of reading on to the end, and what has been read once the end is reached. */
  lemma LastRead(data: seq<Byte>, start: nat, len: nat, first: nat, pos: nat, expected: Digest, sha3: Hash)
    requires first <= pos <= len && ReadResult(data, start, len, first, pos, expected, sha3).Ok?
    ensures var rest := RestOfFile(data, start, len, first, expected, sha3);
            var result := ReadResult(data, start, len, first, len, expected, sha3);
            && (result.Err? ==> rest == Err(result.error))
            && (pos == len ==> rest == Ok(Part(data, start + first, start + pos)))
  {
    NoPart(data, start + first);
  }

  /** The position after reads of the given sizes. */
  function Advanced(pos: nat, len: nat, sizes: seq<nat>): nat
    decreases |sizes|
  {
    if sizes == [] then pos
    else if pos + sizes[0] < len then Advanced(pos + sizes[0], len, sizes[1..])
    else Advanced(if pos < len then len else pos, len, sizes[1..])
  }

  lemma AdvancedNext(pos: nat, len: nat, sizes: seq<nat>, i: nat)
    requires pos <= len && i < |sizes|
    ensures Advanced(pos, len, sizes[i..]) == Advanced(pos + Count(len, pos, sizes[i]), len, sizes[i + 1..])
    ensures pos + Count(len, pos, sizes[i]) <= Advanced(pos, len, sizes[i..]) <= len
  {
    AdvancedIsSum(pos + Count(len, pos, sizes[i]), len, sizes[i + 1..]);
    assert sizes[i..][0] == sizes[i] && sizes[i..][1..] == sizes[i + 1..];
  }

  lemma AdvancedNothing(pos: nat, len: nat, sizes: seq<nat>)
    requires sizes == []
    ensures Advanced(pos, len, sizes) == pos
  {
  }

  /** Only the sum of the sizes matters. */
  lemma {:induction false} AdvancedIsSum(pos: nat, len: nat, sizes: seq<nat>)
    requires pos <= len
    ensures Advanced(pos, len, sizes) == if pos + Sum(sizes) < len then pos + Sum(sizes) else len
    decreases |sizes|
  {
    if sizes != [] {
      AdvancedIsSum(if pos + sizes[0] < len then pos + sizes[0] else len, len, sizes[1..]);
    }
  }

  function Sum(sizes: seq<nat>): nat {
    if sizes == [] then 0 else sizes[0] + Sum(sizes[1..])
  }
}
