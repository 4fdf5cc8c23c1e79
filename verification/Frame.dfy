/** What an operation leaves alone: the slots it does not name, and every live byte outside the zones it names. */
module Frames {
  import opened Wrappers
  import opened Bytes
  import opened Names
  import opened Entries
  import opened Segments
  import opened Headers
  import opened Coverages
  import opened FileTable
  import opened Layouts
  import opened States
  import opened Operations

  /** The zone of the entry in a slot. */
  function SlotZone(segs: Segs, s: Slot): Extent
    requires ValidSlot(segs, s)
  {
    Extent(EntryAddr(segs, s), if s.DirSlot? then DIRECTORY_ENTRY_SIZE else FILE_ENTRY_SIZE)
  }

  /** The zone of the name field of the entry in a slot. */
  function NameZone(segs: Segs, s: Slot): Extent
    requires ValidSlot(segs, s)
  {
    Extent(EntryAddr(segs, s) + NAME_OFFSET_IN_ENTRY, NAME_FIELD_SIZE)
  }

  /** The zone of the next pointer of the last segment, if a segment has been linked behind it. */
  function LinkZones(segs: Segs, segs': Segs): seq<Extent> {
    if |segs'| == |segs| || segs == [] then [] else [Extent(SegmentAddr(segs, |segs| - 1), 8)]
  }

  /** Every slot that there was is still there, at the same address. */
  ghost predicate AddressesKept(segs: Segs, segs': Segs) {
    forall t :: ValidSlot(segs, t) ==> ValidSlot(segs', t) && EntryAddr(segs', t) == EntryAddr(segs, t)
  }

  ghost predicate OtherItemsKept(segs: Segs, segs': Segs, s: Slot) {
    forall t :: t != s ==> ItemAt(segs', t) == ItemAt(segs, t)
  }

  /** Every byte of a used zone is the same, unless it lies in one of the named zones. */
  ghost predicate LiveBytesKept(disk: seq<Byte>, disk': seq<Byte>, used: seq<Extent>, zones: seq<Extent>) {
    && |disk| <= |disk'|
    && forall a: nat :: a < |disk| && Covered(used, a) && !Covered(zones, a) ==> disk'[a] == disk[a]
  }

  /** Every byte is the same, used or free, unless it lies in the named zone. */
  ghost predicate OnlyZoneWritten(disk: seq<Byte>, disk': seq<Byte>, zone: Extent) {
    && |disk'| == |disk|
    && forall a: nat :: a < |disk| && !zone.Covers(a) ==> disk'[a] == disk[a]
  }

  /** At most one segment of empty slots has been added: in free space, and by writing one next pointer. */
  ghost predicate TableExtended(st: State, st': State) {
    && |st.segs| <= |st'.segs| <= |st.segs| + 1
    && AddressesKept(st.segs, st'.segs) && (forall t :: ItemAt(st'.segs, t) == ItemAt(st.segs, t))
    && LiveBytesKept(st.disk, st'.disk, st.used, LinkZones(st.segs, st'.segs))
    && (forall e :: e in st.used ==> e in st'.used)
  }

  /** One slot has been filled or overwritten, after the table may have been extended; some zones were given up before. */
  ghost predicate OneEntryWritten(st: State, st': State, s: Slot, freed: seq<Extent>) {
    && |st.segs| <= |st'.segs| <= |st.segs| + 1 && ValidSlot(st'.segs, s)
    && AddressesKept(st.segs, st'.segs) && OtherItemsKept(st.segs, st'.segs, s)
    && LiveBytesKept(st.disk, st'.disk, st.used, [SlotZone(st'.segs, s)] + freed + LinkZones(st.segs, st'.segs))
  }

  /** One item has another name: its slot is the same, and only the name field has been written. */
  ghost predicate NameWritten(st: State, st': State, s: Slot) {
    && ValidSlot(st.segs, s) && |st'.segs| == |st.segs|
    && AddressesKept(st.segs, st'.segs) && OtherItemsKept(st.segs, st'.segs, s)
    && OnlyZoneWritten(st.disk, st'.disk, NameZone(st.segs, s))
  }

  // -- Bytes -------------------------------------------------------------------------------------

  lemma WriteKeepsByte(disk: seq<Byte>, addr: nat, bytes: seq<Byte>, a: nat)
    requires addr <= |disk| && a < |disk| && !Extent(addr, |bytes|).Covers(a)
    ensures |disk| <= |Write(disk, addr, bytes)| && Write(disk, addr, bytes)[a] == disk[a]
  {
    var disk' := Write(disk, addr, bytes);
    if a >= addr {
      assert disk' == disk[..addr] + bytes + disk[addr + |bytes|..];
    }
  }

  lemma WriteKeepsLive(disk: seq<Byte>, addr: nat, bytes: seq<Byte>, used: seq<Extent>)
    requires addr <= |disk|
    ensures LiveBytesKept(disk, Write(disk, addr, bytes), used, [Extent(addr, |bytes|)])
    ensures DisjointFromAll(Extent(addr, |bytes|), used) ==> LiveBytesKept(disk, Write(disk, addr, bytes), used, [])
  {
    var e := Extent(addr, |bytes|);
    hide Write;
    WriteSize(disk, addr, bytes);
    forall a: nat | a < |disk| && !e.Covers(a)
      ensures Write(disk, addr, bytes)[a] == disk[a]
    {
      WriteKeepsByte(disk, addr, bytes, a);
    }
    assert forall a :: e.Covers(a) ==> [e][0].Covers(a);
    if DisjointFromAll(e, used) {
      forall a: nat | Covered(used, a)
        ensures !e.Covers(a)
      {
        var i :| 0 <= i < |used| && used[i].Covers(a);
        assert Disjoint(e, used[i]);
      }
    }
  }

  /** Two writings one after the other, the second with at least as much in use as the first. */
  lemma LiveTwice(disk: seq<Byte>, disk1: seq<Byte>, disk2: seq<Byte>, used: seq<Extent>, used1: seq<Extent>,
                  zones: seq<Extent>, zones1: seq<Extent>)
    requires LiveBytesKept(disk, disk1, used, zones) && LiveBytesKept(disk1, disk2, used1, zones1)
    requires forall e :: e in used ==> e in used1
    ensures LiveBytesKept(disk, disk2, used, zones1 + zones)
  {
    forall a: nat | a < |disk| && Covered(used, a) && !Covered(zones1 + zones, a)
      ensures disk2[a] == disk[a]
    {
      CoveredInMore(used, used1, a);
      CoveredSum(zones1, zones, a);
    }
  }

  lemma CoveredInMore(used: seq<Extent>, used1: seq<Extent>, a: nat)
    requires (forall e :: e in used ==> e in used1) && Covered(used, a)
    ensures Covered(used1, a)
  {
    var i :| 0 <= i < |used| && used[i].Covers(a);
    assert used[i] in used1;
    MemberCovers(used1, used[i], a);
  }

  lemma MemberCovers(zones: seq<Extent>, e: Extent, a: nat)
    ensures e in zones && e.Covers(a) ==> Covered(zones, a)
  {
  }

  lemma CoveredSum(zones: seq<Extent>, zones1: seq<Extent>, a: nat)
    ensures Covered(zones + zones1, a) <==> Covered(zones, a) || Covered(zones1, a)
  {
    var all := zones + zones1;
    if Covered(zones, a) {
      var i :| 0 <= i < |zones| && zones[i].Covers(a);
      assert all[i].Covers(a);
    }
    if Covered(zones1, a) {
      var i :| 0 <= i < |zones1| && zones1[i].Covers(a);
      assert all[|zones| + i].Covers(a);
    }
  }

  /** What is kept with some zones given up is kept but for these zones. */
  lemma LiveButFreed(disk: seq<Byte>, disk': seq<Byte>, used: seq<Extent>, left: seq<Extent>, zones: seq<Extent>,
                     freed: seq<Extent>)
    requires LiveBytesKept(disk, disk', left, zones)
    requires forall e :: e in used ==> e in left || e in freed
    ensures LiveBytesKept(disk, disk', used, zones + freed)
  {
    forall a: nat | a < |disk| && Covered(used, a) && !Covered(zones + freed, a)
      ensures disk'[a] == disk[a]
    {
      CoveredSum(zones, freed, a);
      var i :| 0 <= i < |used| && used[i].Covers(a);
      MemberCovers(left, used[i], a);
      MemberCovers(freed, used[i], a);
    }
  }

  // -- Operations --------------------------------------------------------------------------------

  lemma SetSlotKeeps(segs: Segs, s: Slot, v: Option<Item>)
    requires ValidSlot(segs, s) && Fits(s, v)
    ensures |SetSlot(segs, s, v)| == |segs| && ValidSlot(SetSlot(segs, s, v), s) && ItemAt(SetSlot(segs, s, v), s) == v
    ensures AddressesKept(segs, SetSlot(segs, s, v)) && OtherItemsKept(segs, SetSlot(segs, s, v), s)
  {
    SetSlotItems(segs, s, v);
    hide ItemAt;
  }

  lemma AddressesKeptTwice(segs: Segs, segs1: Segs, segs2: Segs)
    requires AddressesKept(segs, segs1) && AddressesKept(segs1, segs2)
    ensures AddressesKept(segs, segs2)
  {
    hide EntryAddr, ValidSlot;
  }

  lemma NothingExtended(st: State)
    ensures TableExtended(st, st)
  {
    hide EntryAddr, ItemAt;
  }

  /** A new segment goes to free space, and only the last next pointer changes besides. */
  lemma ExtensionFrame(st: State, addr: U64, fresh_: FileTableSegment)
    requires TableShape(st.segs) && EmptySlots(fresh_) && fresh_.nextSegmentAddr.None? && addr > 0
    requires addr <= |st.disk| && DisjointFromAll(Extent(addr, EncodedLen(fresh_)), st.used)
    requires SegmentAddr(st.segs, |st.segs| - 1) <= |st.disk|
    ensures TableExtended(st, WithSegment(st, addr, fresh_))
  {
    var st' := WithSegment(st, addr, fresh_);
    var bytes, at := EncodeSegment(fresh_), SegmentAddr(st.segs, |st.segs| - 1);
    var disk1 := Write(st.disk, addr, bytes);
    EncodedSize(fresh_);
    ExtendedKeepsItems(st.segs, addr, fresh_);
    ExtendedAddresses(st.segs, addr, fresh_);
    InsertElements(st.used, Extent(addr, EncodedLen(fresh_)));
    hide Write, EncodeSegment, EncodedLen, ItemAt, SegmentAddr, EntryAddr, ValidSlot;
    WriteKeepsLive(st.disk, addr, bytes, st.used);
    WriteKeepsLive(disk1, at, U64Bytes(addr), st.used);
    LiveTwice(st.disk, disk1, st'.disk, st.used, st.used, [], [Extent(at, 8)]);
    assert [Extent(at, 8)] + [] == LinkZones(st.segs, st'.segs);
  }

  lemma ExtendedAddresses(segs: Segs, addr: U64, fresh_: FileTableSegment)
    requires TableShape(segs) && fresh_.nextSegmentAddr.None? && addr > 0
    ensures AddressesKept(segs, Extended(segs, addr, fresh_))
  {
    ExtendedLayout(segs, addr, fresh_, map[]);
    hide SegmentAddr, ExtentOf;
  }

  /** Filling one slot writes its entry, wherever the blob that belongs to it has been put before. */
  lemma EntryFrame(st: State, st': State, s: Slot, v: Option<Item>, disk1: seq<Byte>, freed: seq<Extent>)
    requires ValidSlot(st.segs, s) && Fits(s, v) && st'.segs == SetSlot(st.segs, s, v)
    requires LiveBytesKept(st.disk, disk1, st.used, freed) && EntryAddr(st.segs, s) <= |disk1|
    requires st'.disk == Write(disk1, EntryAddr(st.segs, s), SlotBytes(s, v))
    ensures OneEntryWritten(st, st', s, freed) && |st'.segs| == |st.segs| && ItemAt(st'.segs, s) == v
  {
    hide Write, ItemAt, SlotBytes, SetSlot, EntryAddr, LiveBytesKept;
    SetSlotKeeps(st.segs, s, v);
    WriteKeepsLive(disk1, EntryAddr(st.segs, s), SlotBytes(s, v), st.used);
    LiveTwice(st.disk, disk1, st'.disk, st.used, st.used, freed, [SlotZone(st.segs, s)]);
    assert [SlotZone(st'.segs, s)] + freed + [] == [SlotZone(st.segs, s)] + freed;
  }

  /** Extending the table first adds the next pointer to what is written. */
  lemma ExtendedThenWritten(st: State, st1: State, st2: State, s: Slot)
    requires TableExtended(st, st1) && OneEntryWritten(st1, st2, s, []) && |st2.segs| == |st1.segs|
    ensures OneEntryWritten(st, st2, s, [])
  {
    hide EntryAddr, ItemAt, ValidSlot, LiveBytesKept;
    AddressesKeptTwice(st.segs, st1.segs, st2.segs);
    var zone, link := [SlotZone(st2.segs, s)], LinkZones(st.segs, st1.segs);
    assert zone + [] + [] == zone && zone + [] + link == zone + link;
    LiveTwice(st.disk, st1.disk, st2.disk, st.used, st1.used, link, zone);
  }

  ghost predicate SameKind(s: Slot, t: Slot) {
    s.DirSlot? <==> t.DirSlot?
  }

  /** No slot of the kind is free behind this one, which is free. */
  ghost predicate LastFree(segs: Segs, s: Slot) {
    && ValidSlot(segs, s) && ItemAt(segs, s).None?
    && forall t :: ValidSlot(segs, t) && SameKind(s, t) && (t.seg > s.seg || (t.seg == s.seg && t.idx > s.idx)) ==>
         ItemAt(segs, t).Some?
  }

  /** Where a new item goes: to the last free slot, or to the first slot of a segment that is added as none is free. */
  ghost predicate NextSlot(segs: Segs, s: Slot) {
    || LastFree(segs, s)
    || (s.seg == |segs| && s.idx == 0 && forall t :: ValidSlot(segs, t) && SameKind(s, t) ==> ItemAt(segs, t).Some?)
  }

  /** An item has got the next slot; nothing else in the table and no live byte has changed. */
  ghost predicate ItemAdded(st: State, st': State, item: Item) {
    exists s :: NextSlot(st.segs, s) && ItemAt(st'.segs, s) == Some(item) && OneEntryWritten(st, st', s, [])
  }

  /** An item has changed in its slot; besides its entry, only the zones given up and free space may have been written. */
  ghost predicate ItemRewritten(st: State, st': State, item: Item, item': Item, freed: seq<Extent>) {
    && |st'.segs| == |st.segs|
    && exists s :: ItemAt(st.segs, s) == Some(item) && ItemAt(st'.segs, s) == Some(item') && OneEntryWritten(st, st', s, freed)
  }

  /** An item has changed its name in its slot, and its name field is all that has been written. */
  ghost predicate ItemRenamed(st: State, st': State, item: Item, item': Item) {
    exists s :: ItemAt(st.segs, s) == Some(item) && ItemAt(st'.segs, s) == Some(item') && NameWritten(st, st', s)
  }

  /** An item has left its slot, and its entry is all that has been written. */
  ghost predicate ItemCleared(st: State, st': State, item: Item) {
    exists s :: && ItemAt(st.segs, s) == Some(item) && ItemAt(st'.segs, s) == None && |st'.segs| == |st.segs|
                && AddressesKept(st.segs, st'.segs) && OtherItemsKept(st.segs, st'.segs, s)
                && OnlyZoneWritten(st.disk, st'.disk, SlotZone(st.segs, s))
  }

  /** The entry of a slot of a valid archive lies on the disk. */
  lemma EntryOnDisk(st: State, sha3: Hash, s: Slot)
    requires Inv(st, sha3) && ValidSlot(st.segs, s)
    ensures SlotZone(st.segs, s).End() <= |st.disk|
  {
    InvParts(st, sha3);
    hide Inv, TableShape, OnDisk, SlotsMatch, TreeOk, Group, Tracks, EntryAddr;
    EntryInside(st.segs, st.files, s, None);
    assert ExtentOf(st.segs, st.files, SegmentOwner(s.seg)).End() <= |st.disk|;
  }

  lemma CreateDirFrame(before: State, st: State, sha3: Hash, s: Slot, dir: Directory)
    requires Inv(st, sha3) && TableExtended(before, st) && NextSlot(before.segs, s)
    requires ValidSlot(st.segs, s) && s.DirSlot? && ItemAt(st.segs, s).None? && dir.parentDir in st.content
    ensures ItemAdded(before, AfterCreateDir(st, s, dir), DirItem(dir))
    ensures |AfterCreateDir(st, s, dir).segs| == |st.segs|
  {
    hide Inv, Write, SetSlot, EntryAddr, ItemAt, EncodeDir, NextSlot;
    var st' := AfterCreateDir(st, s, dir);
    EntryOnDisk(st, sha3, s);
    assert SlotBytes(s, Some(DirItem(dir))) == EncodeDir(dir);
    NothingLost(st.disk, st.used);
    EntryFrame(st, st', s, Some(DirItem(dir)), st.disk, []);
    ExtendedThenWritten(before, st, st', s);
  }

  lemma NothingLost(disk: seq<Byte>, used: seq<Extent>)
    ensures LiveBytesKept(disk, disk, used, [])
  {
  }

  /** Storing a file writes a free zone, or one that its old content has just left, and its entry. */
  lemma StoreFileFrame(st: State, st': State, sha3: Hash, s: Slot, file: File, bytes: seq<Byte>)
    requires Inv(st, sha3) && ValidSlot(st.segs, s) && s.FileSlot? && Placed(st, file, bytes, sha3)
    requires st'.segs == SetSlot(st.segs, s, Some(FileItem(file)))
    requires st'.disk == Write(Write(st.disk, file.contentAddr, bytes), EntryAddr(st.segs, s), EncodeFile(file))
    ensures var freed := if file.id in st.files then [BlobExtent(st.files[file.id])] else [];
            OneEntryWritten(st, st', s, freed)
    ensures |st'.segs| == |st.segs| && ItemAt(st'.segs, s) == Some(FileItem(file))
  {
    hide Inv, Write, SetSlot, EntryAddr, ItemAt, EncodeFile, FreedFor, DisjointFromAll, LiveBytesKept;
    var disk1 := Write(st.disk, file.contentAddr, bytes);
    var freed := if file.id in st.files then [BlobExtent(st.files[file.id])] else [];
    EntryOnDisk(st, sha3, s);
    WriteSize(st.disk, file.contentAddr, bytes);
    WriteKeepsLive(st.disk, file.contentAddr, bytes, FreedFor(st, file.id));
    FreedElements(st, sha3, file.id, freed);
    LiveButFreed(st.disk, disk1, st.used, FreedFor(st, file.id), [], freed);
    assert [] + freed == freed;
    assert SlotBytes(s, Some(FileItem(file))) == EncodeFile(file);
    EntryFrame(st, st', s, Some(FileItem(file)), disk1, freed);
  }

  lemma FreedElements(st: State, sha3: Hash, id: Id, freed: seq<Extent>)
    requires Inv(st, sha3) && freed == if id in st.files then [BlobExtent(st.files[id])] else []
    ensures forall e :: e in st.used ==> e in FreedFor(st, id) || e in freed
  {
    hide TableShape, OnDisk, SlotsMatch, TreeOk, Group, Layout, DigestsMatch, Packed, Owned;
    InvParts(st, sha3);
    if id in st.files {
      RemovePacked(st.used, BlobExtent(st.files[id]));
      assert BlobExtent(st.files[id]) == freed[0];
    }
  }

  lemma CreateFileFrame(before: State, st: State, st': State, s: Slot, file: File)
    requires TableExtended(before, st) && OneEntryWritten(st, st', s, []) && |st'.segs| == |st.segs|
    requires NextSlot(before.segs, s) && ItemAt(st'.segs, s) == Some(FileItem(file))
    ensures ItemAdded(before, st', FileItem(file))
  {
    hide OneEntryWritten, NextSlot;
    ExtendedThenWritten(before, st, st', s);
  }

  lemma RenameFrame(st: State, sha3: Hash, s: Slot, u: Item, name: Name)
    requires Inv(st, sha3) && ValidSlot(st.segs, s) && Fits(s, Some(u)) && u.Parent() in st.content
    requires ItemAt(st.segs, s) == Some(u)
    ensures ItemRenamed(st, AfterRename(st, s, u, name), u, WithName(u, name))
  {
    hide Inv, Write, SetSlot, EntryAddr, ItemAt, EncodeName, Renamed, WithName;
    var st' := AfterRename(st, s, u, name);
    EntryOnDisk(st, sha3, s);
    SetSlotKeeps(st.segs, s, Some(WithName(u, name)));
    ZoneWritten(st.disk, NameZone(st.segs, s), EncodeName(name));
  }

  lemma ZoneWritten(disk: seq<Byte>, zone: Extent, bytes: seq<Byte>)
    requires zone.len == |bytes| && zone.End() <= |disk|
    ensures OnlyZoneWritten(disk, Write(disk, zone.start, bytes), zone)
  {
    hide Write;
    WriteSize(disk, zone.start, bytes);
    forall a: nat | a < |disk| && !zone.Covers(a)
      ensures Write(disk, zone.start, bytes)[a] == disk[a]
    {
      WriteKeepsByte(disk, zone.start, bytes, a);
    }
  }

  lemma RemoveFileFrame(st: State, sha3: Hash, s: Slot, file: File)
    requires Inv(st, sha3) && ValidSlot(st.segs, s) && s.FileSlot? && file.parentDir in st.content
    requires ItemAt(st.segs, s) == Some(FileItem(file))
    ensures ItemCleared(st, AfterRemoveFile(st, s, file), FileItem(file))
  {
    hide Inv, Write, SetSlot, EntryAddr, ItemAt, Zeros, Unmarked, Left;
    EntryOnDisk(st, sha3, s);
    SetSlotKeeps(st.segs, s, None);
    ZoneWritten(st.disk, SlotZone(st.segs, s), Zeros(FILE_ENTRY_SIZE));
  }
}
