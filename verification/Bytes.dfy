/** Bytes, fixed-width little-endian integers, and the byte store that an archive lives in. */
module Bytes {
  type Byte = b: int | 0 <= b < 0x100
  type U32 = n: int | 0 <= n < 0x1_0000_0000
  type U64 = n: int | 0 <= n < 0x1_0000_0000_0000_0000

  const U32_LIMIT := 0x1_0000_0000
  const U64_LIMIT := 0x1_0000_0000_0000_0000

  function Zeros(n: nat): (bytes: seq<Byte>)
    ensures |bytes| == n
  {
    seq(n, _ => 0)
  }

  // -- Little-endian integers ------------------------------------------------------------------

  function LittleEndian(n: nat, width: nat): (bytes: seq<Byte>)
    ensures |bytes| == width
    decreases width
  {
    if width == 0 then [] else [n % 0x100] + LittleEndian(n / 0x100, width - 1)
  }

  function FromLittleEndian(bytes: seq<Byte>): nat {
    if bytes == [] then 0 else bytes[0] + 0x100 * FromLittleEndian(bytes[1..])
  }

  /** The number of values that `width` bytes can represent. */
  function Capacity(width: nat): nat {
    if width == 0 then 1 else 0x100 * Capacity(width - 1)
  }

  lemma CapacityOfWords()
    ensures Capacity(4) == U32_LIMIT && Capacity(8) == U64_LIMIT
  {
    assert Capacity(2) == 0x1_0000;
    assert Capacity(4) == 0x1_0000_0000;
    assert Capacity(6) == 0x1_0000_0000_0000;
  }

  lemma {:induction false} LittleEndianRoundTrip(n: nat, width: nat)
    requires n < Capacity(width)
    ensures FromLittleEndian(LittleEndian(n, width)) == n
    decreases width
  {
    if width > 0 {
      LittleEndianRoundTrip(n / 0x100, width - 1);
      assert LittleEndian(n, width)[1..] == LittleEndian(n / 0x100, width - 1);
    }
  }

  lemma {:induction false} FromLittleEndianBound(bytes: seq<Byte>)
    ensures FromLittleEndian(bytes) < Capacity(|bytes|)
  {
    if bytes != [] {
      FromLittleEndianBound(bytes[1..]);
    }
  }

  lemma {:induction false} FromLittleEndianRoundTrip(bytes: seq<Byte>)
    ensures LittleEndian(FromLittleEndian(bytes), |bytes|) == bytes
  {
    if bytes != [] {
      var low, high := bytes[0], FromLittleEndian(bytes[1..]);
      FromLittleEndianRoundTrip(bytes[1..]);
      ByteSplit(low, high);
      LittleEndianStep(low, high, |bytes|);
      assert bytes == [low] + bytes[1..];
    }
  }

  lemma LittleEndianStep(low: Byte, high: nat, width: nat)
    requires 0 < width
    ensures LittleEndian(low + 0x100 * high, width) == [low] + LittleEndian(high, width - 1)
  {
    ByteSplit(low, high);
  }

  lemma ByteSplit(low: Byte, high: nat)
    ensures (low + 0x100 * high) % 0x100 == low && (low + 0x100 * high) / 0x100 == high
  {
  }

  function U64Bytes(n: U64): (bytes: seq<Byte>)
    ensures |bytes| == 8
  {
    LittleEndian(n, 8)
  }

  function U32Bytes(n: U32): (bytes: seq<Byte>)
    ensures |bytes| == 4
  {
    LittleEndian(n, 4)
  }

  // -- Zones of a byte store -------------------------------------------------------------------

  /** The bytes `bytes` are stored at address `addr`. */
  ghost predicate At(disk: seq<Byte>, addr: nat, bytes: seq<Byte>) {
    addr + |bytes| <= |disk| && disk[addr..addr + |bytes|] == bytes
  }

  /** The two stores hold the same bytes in the zone of `len` bytes that starts at `addr`. */
  ghost predicate Same(disk: seq<Byte>, disk': seq<Byte>, addr: nat, len: nat) {
    && addr + len <= |disk|
    && addr + len <= |disk'|
    && disk'[addr..addr + len] == disk[addr..addr + len]
  }

  /** The store after `bytes` have been written at `addr`: a gap past the end is filled with zeroes. */
  function Write(disk: seq<Byte>, addr: nat, bytes: seq<Byte>): (disk': seq<Byte>) {
    (if addr <= |disk| then disk[..addr] else disk + Zeros(addr - |disk|))
    + bytes
    + (if addr + |bytes| < |disk| then disk[addr + |bytes|..] else [])
  }

  lemma WriteSize(disk: seq<Byte>, addr: nat, bytes: seq<Byte>)
    requires addr <= |disk|
    ensures |Write(disk, addr, bytes)| == if addr + |bytes| <= |disk| then |disk| else addr + |bytes|
  {
  }

  lemma WriteStores(disk: seq<Byte>, addr: nat, bytes: seq<Byte>)
    ensures At(Write(disk, addr, bytes), addr, bytes)
  {
    var head := if addr <= |disk| then disk[..addr] else disk + Zeros(addr - |disk|);
    assert |head| == addr;
    assert Write(disk, addr, bytes)[addr..] ==
           bytes + (if addr + |bytes| < |disk| then disk[addr + |bytes|..] else []);
  }

  /** Writing leaves every zone that it does not touch as it was. */
  lemma WriteFrame(disk: seq<Byte>, addr: nat, bytes: seq<Byte>, zone: nat, len: nat)
    requires addr <= |disk| && zone + len <= |disk|
    requires len == 0 || |bytes| == 0 || zone + len <= addr || addr + |bytes| <= zone
    ensures Same(disk, Write(disk, addr, bytes), zone, len)
  {
    var disk' := Write(disk, addr, bytes);
    forall k | zone <= k < zone + len
      ensures disk'[k] == disk[k]
    {
      if k >= addr {
        assert disk' == disk[..addr] + bytes + disk[addr + |bytes|..];
      }
    }
  }

  /** Writing `front` and then `back` behind it is writing their concatenation. */
  lemma WriteTwice(disk: seq<Byte>, addr: nat, front: seq<Byte>, back: seq<Byte>)
    requires addr <= |disk|
    ensures Write(Write(disk, addr, front), addr + |front|, back) == Write(disk, addr, front + back)
  {
    var once := Write(disk, addr, front);
    assert once[..addr + |front|] == disk[..addr] + front;
    var end := addr + |front| + |back|;
    if end < |disk| {
      assert once[end..] == disk[end..];
    }
  }

  lemma AtAppend(disk: seq<Byte>, addr: nat, front: seq<Byte>, back: seq<Byte>)
    ensures At(disk, addr, front + back) <==> At(disk, addr, front) && At(disk, addr + |front|, back)
  {
    var end := addr + |front| + |back|;
    if end <= |disk| {
      assert disk[addr..end] == disk[addr..addr + |front|] + disk[addr + |front|..end];
      if At(disk, addr, front + back) {
        assert disk[addr..addr + |front|] == (front + back)[..|front|];
        assert disk[addr + |front|..end] == (front + back)[|front|..];
      }
    }
  }

  lemma AtSame(disk: seq<Byte>, disk': seq<Byte>, addr: nat, len: nat, at: nat, bytes: seq<Byte>)
    requires Same(disk, disk', addr, len)
    requires At(disk, at, bytes) && addr <= at && at + |bytes| <= addr + len
    ensures At(disk', at, bytes)
  {
    var before, after := disk[addr..addr + len], disk'[addr..addr + len];
    forall k | 0 <= k < |bytes|
      ensures disk'[at + k] == bytes[k]
    {
      assert after[at - addr + k] == before[at - addr + k];
      assert disk[at..at + |bytes|][k] == bytes[k];
    }
  }

  lemma WriteNothing(disk: seq<Byte>, addr: nat)
    requires addr <= |disk|
    ensures Write(disk, addr, []) == disk
  {
  }

  lemma JoinSlices(data: seq<Byte>, low: nat, mid: nat, high: nat)
    requires low <= mid <= high <= |data|
    ensures data[low..mid] + data[mid..high] == data[low..high]
  {
  }

  /** Overwriting a zone with what it already holds changes nothing. */
  lemma WriteSameBytes(disk: seq<Byte>, addr: nat, bytes: seq<Byte>)
    requires At(disk, addr, bytes)
    ensures Write(disk, addr, bytes) == disk
  {
  }

  /** Patching the middle of a stored record is rewriting the record. */
  lemma WriteMiddle(disk: seq<Byte>, addr: nat, head: seq<Byte>, old_: seq<Byte>, new_: seq<Byte>, tail: seq<Byte>)
    requires At(disk, addr, head + old_ + tail) && |old_| == |new_|
    ensures Write(disk, addr + |head|, new_) == Write(disk, addr, head + new_ + tail)
  {
    AtAppend(disk, addr, head + old_, tail);
    AtAppend(disk, addr, head, old_);
    WriteTwice(disk, addr, head, new_);
    WriteSameBytes(disk, addr, head);
    var once := Write(disk, addr, head + new_);
    WriteTwice(disk, addr, head + new_, tail);
    var at := addr + |head| + |new_|;
    WriteFrame(disk, addr, head + new_, at, |tail|);
    WriteSameBytes(once, at, tail);
  }

  lemma Stride(i: nat, n: nat, room: nat)
    requires i <= n
    ensures i * room <= n * room
    ensures (i + 1) * room == i * room + room
  {
    assert n * room == i * room + (n - i) * room;
  }
}
