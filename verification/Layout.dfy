/** Where everything lies on the disk: the header, the segments and the blobs own disjoint zones. */
module Layouts {
  import opened Wrappers
  import opened Bytes
  import opened Entries
  import opened Segments
  import opened Headers
  import opened Coverages
  import opened FileTable

  datatype Owner = HeaderOwner | SegmentOwner(i: nat) | BlobOwner(id: Id)

  function BlobExtent(file: File): Extent {
    Extent(file.contentAddr, file.contentLen)
  }

  /** The zone that belongs to an owner; empty for an owner that does not exist. */
  function ExtentOf(segs: Segs, files: Files, o: Owner): Extent {
    match o
    case HeaderOwner => Extent(0, HEADER_SIZE)
    case SegmentOwner(i) => if i < |segs| then Extent(SegmentAddr(segs, i), EncodedLen(segs[i])) else Extent(0, 0)
    case BlobOwner(id) => if id in files then BlobExtent(files[id]) else Extent(0, 0)
  }

  /** All zones are inside the archive and no two owners share a byte. */
  ghost predicate Layout(size: nat, segs: Segs, files: Files) {
    && (forall o :: ExtentOf(segs, files, o).End() <= size)
    && (forall o, p :: o != p ==> Disjoint(ExtentOf(segs, files, o), ExtentOf(segs, files, p)))
  }

  ghost predicate Owned(segs: Segs, files: Files, e: Extent) {
    e.len > 0 && exists o :: ExtentOf(segs, files, o) == e
  }

  /** The allocator tracks exactly the non-empty zones that are owned. */
  ghost predicate Tracks(used: seq<Extent>, segs: Segs, files: Files) {
    && Packed(used)
    && forall e :: e in used <==> Owned(segs, files, e)
  }

  /** A zone that no owner but `except` touches. */
  ghost predicate Untouched(segs: Segs, files: Files, e: Extent, except: Option<Owner>) {
    forall o :: Some(o) != except ==> Disjoint(e, ExtentOf(segs, files, o))
  }

  /** Every owner but `except` finds the same bytes in its zone. */
  ghost predicate Kept(disk: seq<Byte>, disk': seq<Byte>, segs: Segs, files: Files, except: Option<Owner>) {
    forall o :: Some(o) != except ==>
      Same(disk, disk', ExtentOf(segs, files, o).start, ExtentOf(segs, files, o).len)
  }

  /** The header and every segment are stored at their address. */
  ghost predicate OnDisk(disk: seq<Byte>, segs: Segs) {
    && At(disk, 0, EncodeHeader(Header(One)))
    && forall i :: 0 <= i < |segs| ==> At(disk, SegmentAddr(segs, i), EncodeSegment(segs[i]))
  }

  lemma WriteKeeps(disk: seq<Byte>, addr: nat, bytes: seq<Byte>, segs: Segs, files: Files, except: Option<Owner>)
    requires addr <= |disk| && Layout(|disk|, segs, files)
    requires Untouched(segs, files, Extent(addr, |bytes|), except)
    ensures Kept(disk, Write(disk, addr, bytes), segs, files, except)
  {
    hide ExtentOf, Same, Write;
    forall o | Some(o) != except
      ensures Same(disk, Write(disk, addr, bytes), ExtentOf(segs, files, o).start, ExtentOf(segs, files, o).len)
    {
      var e := ExtentOf(segs, files, o);
      assert Disjoint(Extent(addr, |bytes|), e) && e.End() <= |disk|;
      WriteFrame(disk, addr, bytes, e.start, e.len);
    }
  }

  /** What keeps the zones of the header and of the segments keeps the file table. */
  lemma KeptOnDisk(disk: seq<Byte>, disk': seq<Byte>, segs: Segs, files: Files)
    requires OnDisk(disk, segs) && Kept(disk, disk', segs, files, None)
    ensures OnDisk(disk', segs)
  {
    KeptHeader(disk, disk', segs, files, None);
    forall i | 0 <= i < |segs|
      ensures At(disk', SegmentAddr(segs, i), EncodeSegment(segs[i]))
    {
      KeptSegment(disk, disk', segs, files, None, i);
    }
  }

  lemma KeptHeader(disk: seq<Byte>, disk': seq<Byte>, segs: Segs, files: Files, except: Option<Owner>)
    requires At(disk, 0, EncodeHeader(Header(One)))
    requires Kept(disk, disk', segs, files, except) && except != Some(HeaderOwner)
    ensures At(disk', 0, EncodeHeader(Header(One)))
  {
    hide EncodeHeader, At, Same, EncodeSegment;
    assert ExtentOf(segs, files, HeaderOwner) == Extent(0, HEADER_SIZE);
    AtSame(disk, disk', 0, HEADER_SIZE, 0, EncodeHeader(Header(One)));
  }

  lemma KeptSegment(disk: seq<Byte>, disk': seq<Byte>, segs: Segs, files: Files, except: Option<Owner>, i: nat)
    requires i < |segs| && At(disk, SegmentAddr(segs, i), EncodeSegment(segs[i]))
    requires Kept(disk, disk', segs, files, except) && except != Some(SegmentOwner(i))
    ensures At(disk', SegmentAddr(segs, i), EncodeSegment(segs[i]))
  {
    hide EncodeHeader, At, Same, EncodeSegment, SegmentAddr, EncodedLen;
    assert ExtentOf(segs, files, SegmentOwner(i)) == Extent(SegmentAddr(segs, i), EncodedLen(segs[i]));
    EncodedSize(segs[i]);
    AtSame(disk, disk', SegmentAddr(segs, i), EncodedLen(segs[i]), SegmentAddr(segs, i), EncodeSegment(segs[i]));
  }

  // -- Blobs -------------------------------------------------------------------------------------

  /** The bytes of a zone. */
  function ZoneBytes(disk: seq<Byte>, e: Extent): seq<Byte> {
    if e.End() <= |disk| then disk[e.start..e.End()] else []
  }

  function Blob(disk: seq<Byte>, file: File): seq<Byte> {
    ZoneBytes(disk, BlobExtent(file))
  }

  lemma KeptBlob(disk: seq<Byte>, disk': seq<Byte>, segs: Segs, files: Files, except: Option<Owner>, id: Id)
    requires Kept(disk, disk', segs, files, except) && id in files && except != Some(BlobOwner(id))
    ensures Blob(disk', files[id]) == Blob(disk, files[id])
  {
    assert ExtentOf(segs, files, BlobOwner(id)) == BlobExtent(files[id]);
  }

  // -- Changing one slot -------------------------------------------------------------------------

  lemma SetSlotLayout(segs: Segs, files: Files, s: Slot, v: Option<Item>)
    requires ValidSlot(segs, s) && Fits(s, v)
    ensures |SetSlot(segs, s, v)| == |segs|
    ensures forall i :: SegmentAddr(SetSlot(segs, s, v), i) == SegmentAddr(segs, i)
    ensures forall o :: ExtentOf(SetSlot(segs, s, v), files, o) == ExtentOf(segs, files, o)
    ensures TableShape(segs) ==> TableShape(SetSlot(segs, s, v))
  {
  }

  lemma SameExtents(size: nat, segs: Segs, files: Files, segs': Segs, files': Files, used: seq<Extent>)
    requires forall o :: ExtentOf(segs', files', o) == ExtentOf(segs, files, o)
    ensures Layout(size, segs, files) <==> Layout(size, segs', files')
    ensures Tracks(used, segs, files) ==> Tracks(used, segs', files')
  {
    hide ExtentOf;
    forall e
      ensures Owned(segs', files', e) <==> Owned(segs, files, e)
    {
      if Owned(segs, files, e) {
        var o :| ExtentOf(segs, files, o) == e;
        assert ExtentOf(segs', files', o) == e;
      }
      if Owned(segs', files', e) {
        var o :| ExtentOf(segs', files', o) == e;
        assert ExtentOf(segs, files, o) == e;
      }
    }
  }

  /** Changing a slot moves nothing. */
  lemma SetSlotFrames(size: nat, used: seq<Extent>, segs: Segs, files: Files, s: Slot, v: Option<Item>)
    requires ValidSlot(segs, s) && Fits(s, v) && TableShape(segs)
    requires Layout(size, segs, files) && Tracks(used, segs, files)
    ensures TableShape(SetSlot(segs, s, v))
    ensures Layout(size, SetSlot(segs, s, v), files) && Tracks(used, SetSlot(segs, s, v), files)
  {
    SetSlotLayout(segs, files, s, v);
    hide Layout, Tracks, SetSlot, ExtentOf;
    SameExtents(size, segs, files, SetSlot(segs, s, v), files, used);
  }

  /** An entry lies inside its segment. */
  lemma EntryInside(segs: Segs, files: Files, s: Slot, v: Option<Item>)
    requires ValidSlot(segs, s) && Fits(s, v)
    ensures var e := ExtentOf(segs, files, SegmentOwner(s.seg));
            e.start + 16 <= EntryAddr(segs, s) && EntryAddr(segs, s) + |SlotBytes(s, v)| <= e.End()
  {
    hide SlotBytes;
  }

  lemma InsideUntouched(size: nat, segs: Segs, files: Files, owner: Owner, e: Extent)
    requires Layout(size, segs, files)
    requires ExtentOf(segs, files, owner).start <= e.start && e.End() <= ExtentOf(segs, files, owner).End()
    ensures Untouched(segs, files, e, Some(owner)) && e.start <= size
  {
    hide ExtentOf;
    assert ExtentOf(segs, files, owner).End() <= size;
    forall o | Some(o) != Some(owner)
      ensures Disjoint(e, ExtentOf(segs, files, o))
    {
      assert Disjoint(ExtentOf(segs, files, owner), ExtentOf(segs, files, o));
    }
  }

  /** Writing one slot in place: the disk again holds the full encoding of every segment, and nothing else moved. */
  lemma SlotWritten(disk: seq<Byte>, segs: Segs, files: Files, s: Slot, v: Option<Item>)
    requires OnDisk(disk, segs) && Layout(|disk|, segs, files)
    requires ValidSlot(segs, s) && Fits(s, v)
    ensures var disk' := Write(disk, EntryAddr(segs, s), SlotBytes(s, v));
            && |disk'| == |disk|
            && OnDisk(disk', SetSlot(segs, s, v))
            && Kept(disk, disk', segs, files, Some(SegmentOwner(s.seg)))
  {
    var owner := SegmentOwner(s.seg);
    var addr, bytes := EntryAddr(segs, s), SlotBytes(s, v);
    var disk', segs' := Write(disk, addr, bytes), SetSlot(segs, s, v);
    EntryInside(segs, files, s, v);
    InsideUntouched(|disk|, segs, files, owner, Extent(addr, |bytes|));
    assert ExtentOf(segs, files, owner).End() <= |disk|;
    WriteSize(disk, addr, bytes);
    WriteKeeps(disk, addr, bytes, segs, files, Some(owner));
    KeptHeader(disk, disk', segs, files, Some(owner));
    SetSlotLayout(segs, files, s, v);
    PatchedSegment(disk, segs, s, v);
    hide EntryAddr, SlotBytes, Write, Kept, Layout, At, EncodeSegment, EncodeHeader, SegmentAddr, ExtentOf;
    forall i | 0 <= i < |segs'|
      ensures At(disk', SegmentAddr(segs', i), EncodeSegment(segs'[i]))
    {
      if i != s.seg {
        KeptSegment(disk, disk', segs, files, Some(owner), i);
      }
    }
  }

  lemma PatchedSegment(disk: seq<Byte>, segs: Segs, s: Slot, v: Option<Item>)
    requires OnDisk(disk, segs) && ValidSlot(segs, s) && Fits(s, v)
    ensures At(Write(disk, EntryAddr(segs, s), SlotBytes(s, v)), SegmentAddr(segs, s.seg),
               EncodeSegment(SetSlot(segs, s, v)[s.seg]))
  {
    hide At, Write, EncodeSegment, EncodeHeader, SegmentAddr, DirSlotBytes, FileSlotBytes;
    match s
    case DirSlot(i, j) =>
      PatchDirSlot(disk, SegmentAddr(segs, i), segs[i], j, if v.Some? then Some(v.value.dir) else None);
    case FileSlot(i, j) =>
      PatchFileSlot(disk, SegmentAddr(segs, i), segs[i], j, if v.Some? then Some(v.value.file) else None);
  }

  lemma LayoutGrows(size: nat, size': nat, segs: Segs, files: Files)
    requires Layout(size, segs, files) && size <= size'
    ensures Layout(size', segs, files)
  {
    hide ExtentOf;
  }

  // -- Allocating and freeing --------------------------------------------------------------------

  /** A zone that overlaps no tracked zone overlaps no owner. */
  lemma FreeForAll(used: seq<Extent>, segs: Segs, files: Files, e: Extent)
    requires Tracks(used, segs, files) && DisjointFromAll(e, used)
    ensures Untouched(segs, files, e, None)
  {
    forall o
      ensures Disjoint(e, ExtentOf(segs, files, o))
    {
      var p := ExtentOf(segs, files, o);
      if p.len > 0 {
        assert Owned(segs, files, p);
        var i :| 0 <= i < |used| && used[i] == p;
      }
    }
  }

  /** What the allocator tracks after a zone has been marked as used. */
  function Marked(used: seq<Extent>, e: Extent): seq<Extent> {
    if e.len == 0 then used else Insert(used, e)
  }

  /** `len` bytes have got the best place there was: it is tracked, and the archive has grown if it had to. */
  ghost predicate Allotted(used: seq<Extent>, size: nat, len: nat, addr: nat, used': seq<Extent>, size': nat) {
    && IsBestPlace(used, size, len, addr)
    && used' == Marked(used, Extent(addr, len))
    && size' == if addr + len <= size then size else addr + len
  }

  function Unmarked(used: seq<Extent>, e: Extent): seq<Extent> {
    if e.len > 0 then Remove(used, e) else used
  }

  /** Giving up the blob of a file frees its zone and no other. */
  lemma BlobFreed(size: nat, used: seq<Extent>, segs: Segs, files: Files, id: Id)
    requires Layout(size, segs, files) && Tracks(used, segs, files) && id in files
    ensures Layout(size, segs, files - {id})
    ensures Tracks(Unmarked(used, BlobExtent(files[id])), segs, files - {id})
  {
    ExtentsWithout(segs, files, id);
    hide ExtentOf, BlobExtent, Unmarked;
    OwnerRemoved(size, used, segs, files, files - {id}, BlobOwner(id));
  }

  lemma ExtentsWithout(segs: Segs, files: Files, id: Id)
    requires id in files
    ensures forall o :: ExtentOf(segs, files - {id}, o) ==
                        if o == BlobOwner(id) then Extent(0, 0) else ExtentOf(segs, files, o)
    ensures ExtentOf(segs, files, BlobOwner(id)) == BlobExtent(files[id])
  {
    hide SegmentAddr, EncodedLen;
  }

  lemma ExtentsWith(segs: Segs, rest: Files, file: File)
    requires file.id !in rest
    ensures forall o :: ExtentOf(segs, rest[file.id := file], o) ==
                        if o == BlobOwner(file.id) then BlobExtent(file) else ExtentOf(segs, rest, o)
    ensures ExtentOf(segs, rest, BlobOwner(file.id)) == Extent(0, 0)
  {
    hide SegmentAddr, EncodedLen;
  }

  /** One owner less: its zone is no longer tracked. */
  lemma OwnerRemoved(size: nat, used: seq<Extent>, segs: Segs, files: Files, rest: Files, owner: Owner)
    requires Layout(size, segs, files) && Tracks(used, segs, files)
    requires forall o :: ExtentOf(segs, rest, o) == if o == owner then Extent(0, 0) else ExtentOf(segs, files, o)
    ensures Layout(size, segs, rest)
    ensures Tracks(Unmarked(used, ExtentOf(segs, files, owner)), segs, rest)
  {
    var e := ExtentOf(segs, files, owner);
    RemovePacked(used, e);
    hide ExtentOf, Remove;
    forall x
      ensures x in Unmarked(used, e) <==> Owned(segs, rest, x)
    {
      if x in Unmarked(used, e) {
        assert Owned(segs, files, x);
        var o :| ExtentOf(segs, files, o) == x;
        assert ExtentOf(segs, rest, o) == x;
      }
      if Owned(segs, rest, x) {
        var o :| ExtentOf(segs, rest, o) == x;
        assert o != owner && ExtentOf(segs, files, o) == x;
        assert Disjoint(x, e);
        assert Owned(segs, files, x);
      }
    }
  }

  /** A blob placed in a zone that no owner touches joins the layout. */
  lemma BlobAdded(size: nat, used: seq<Extent>, segs: Segs, rest: Files, file: File)
    requires Layout(size, segs, rest) && Tracks(used, segs, rest) && file.id !in rest
    requires Untouched(segs, rest, BlobExtent(file), None) && BlobExtent(file).End() <= size
    ensures Layout(size, segs, rest[file.id := file])
    ensures Tracks(Marked(used, BlobExtent(file)), segs, rest[file.id := file])
  {
    ExtentsWith(segs, rest, file);
    hide ExtentOf, BlobExtent, Marked;
    OwnerAdded(size, used, segs, rest, segs, rest[file.id := file], BlobOwner(file.id), BlobExtent(file));
  }

  /** One more owner, in a zone that no other owner touches. */
  lemma OwnerAdded(size: nat, used: seq<Extent>, segs: Segs, files: Files, segs': Segs, files': Files,
                   owner: Owner, e: Extent)
    requires Layout(size, segs, files) && Tracks(used, segs, files)
    requires Untouched(segs, files, e, None) && e.End() <= size
    requires ExtentOf(segs, files, owner) == Extent(0, 0)
    requires forall o :: ExtentOf(segs', files', o) == if o == owner then e else ExtentOf(segs, files, o)
    ensures Layout(size, segs', files')
    ensures Tracks(Marked(used, e), segs', files')
  {
    hide *;
    OwnerAddedLayout(size, segs, files, segs', files', owner, e);
    OwnerAddedPacked(size, used, segs, files, e);
    OwnerAddedTracked(used, segs, files, segs', files', owner, e);
    TracksOf(Marked(used, e), segs', files');
  }

  lemma OwnerAddedLayout(size: nat, segs: Segs, files: Files, segs': Segs, files': Files, owner: Owner, e: Extent)
    requires Layout(size, segs, files) && Untouched(segs, files, e, None) && e.End() <= size
    requires forall o :: ExtentOf(segs', files', o) == if o == owner then e else ExtentOf(segs, files, o)
    ensures Layout(size, segs', files')
  {
    hide ExtentOf;
  }

  lemma OwnerAddedPacked(size: nat, used: seq<Extent>, segs: Segs, files: Files, e: Extent)
    requires Layout(size, segs, files) && Tracks(used, segs, files) && Untouched(segs, files, e, None)
    ensures Packed(Marked(used, e))
  {
    hide ExtentOf, Layout;
    if e.len > 0 {
      forall i | 0 <= i < |used|
        ensures Disjoint(e, used[i])
      {
        assert used[i] in used;
        assert Owned(segs, files, used[i]);
        var o :| ExtentOf(segs, files, o) == used[i];
        assert Disjoint(e, ExtentOf(segs, files, o));
      }
      InsertPacked(used, e);
    }
  }

  lemma OwnerAddedTracked(used: seq<Extent>, segs: Segs, files: Files, segs': Segs, files': Files,
                          owner: Owner, e: Extent)
    requires Tracks(used, segs, files) && ExtentOf(segs, files, owner) == Extent(0, 0)
    requires forall o :: ExtentOf(segs', files', o) == if o == owner then e else ExtentOf(segs, files, o)
    ensures forall x :: x in Marked(used, e) <==> Owned(segs', files', x)
  {
    hide ExtentOf, Packed, Insert;
    InsertElements(used, e);
    forall x
      ensures x in Marked(used, e) <==> Owned(segs', files', x)
    {
      assert x in used <==> Owned(segs, files, x);
      if Owned(segs, files, x) {
        var o :| ExtentOf(segs, files, o) == x;
        assert ExtentOf(segs', files', o) == x;
      }
      if Owned(segs', files', x) {
        var o :| ExtentOf(segs', files', o) == x;
        assert o != owner ==> ExtentOf(segs, files, o) == x;
      }
      assert ExtentOf(segs', files', owner) == e;
    }
  }

  lemma TracksOf(used: seq<Extent>, segs: Segs, files: Files)
    requires Packed(used) && forall e :: e in used <==> Owned(segs, files, e)
    ensures Tracks(used, segs, files)
  {
  }

  // -- A new segment -----------------------------------------------------------------------------

  /** The table after a segment has been linked behind its last one. */
  function Extended(segs: Segs, addr: U64, fresh_: FileTableSegment): Segs
    requires |segs| > 0
  {
    var last := |segs| - 1;
    segs[last := segs[last].(nextSegmentAddr := Some(addr))] + [fresh_]
  }

  lemma ExtendedLayout(segs: Segs, addr: U64, fresh_: FileTableSegment, files: Files)
    requires TableShape(segs) && addr > 0 && fresh_.nextSegmentAddr.None?
    ensures TableShape(Extended(segs, addr, fresh_))
    ensures |Extended(segs, addr, fresh_)| == |segs| + 1
    ensures Extended(segs, addr, fresh_)[|segs|] == fresh_ && SegmentAddr(Extended(segs, addr, fresh_), |segs|) == addr
    ensures forall i :: 0 <= i < |segs| - 1 ==> Extended(segs, addr, fresh_)[i] == segs[i]
    ensures forall i :: 0 <= i < |segs| ==> SegmentAddr(Extended(segs, addr, fresh_), i) == SegmentAddr(segs, i)
    ensures forall o :: ExtentOf(Extended(segs, addr, fresh_), files, o) ==
                        if o == SegmentOwner(|segs|) then Extent(addr, EncodedLen(fresh_))
                        else ExtentOf(segs, files, o)
    ensures ExtentOf(segs, files, SegmentOwner(|segs|)) == Extent(0, 0)
  {
  }

  /** Linking a segment changes eight bytes of the previous one. */
  lemma SegmentLinked(disk: seq<Byte>, segs: Segs, files: Files, addr: U64, fresh_: FileTableSegment)
    requires TableShape(segs) && addr > 0 && fresh_.nextSegmentAddr.None?
    requires OnDisk(disk, segs) && Layout(|disk|, Extended(segs, addr, fresh_), files)
    requires At(disk, addr, EncodeSegment(fresh_))
    ensures var disk' := Write(disk, SegmentAddr(segs, |segs| - 1), U64Bytes(addr));
            && |disk'| == |disk|
            && OnDisk(disk', Extended(segs, addr, fresh_))
            && Kept(disk, disk', Extended(segs, addr, fresh_), files, Some(SegmentOwner(|segs| - 1)))
  {
    hide U64Bytes, Write, EncodeSegment, EncodeHeader, At, SegmentAddr, Same, Kept, Untouched, EncodedLen;
    var segs', last := Extended(segs, addr, fresh_), |segs| - 1;
    var at := SegmentAddr(segs, last);
    var disk' := Write(disk, at, U64Bytes(addr));
    ExtendedLayout(segs, addr, fresh_, files);
    NextPointerInside(|disk|, segs, files, addr, fresh_);
    hide Layout, ExtentOf;
    WriteSize(disk, at, U64Bytes(addr));
    WriteKeeps(disk, at, U64Bytes(addr), segs', files, Some(SegmentOwner(last)));
    PatchNext(disk, at, segs[last], addr);
    StoredElsewhere(disk, disk', segs, files, addr, fresh_);
  }

  /** The 8 bytes of the last next pointer belong to the last segment. */
  lemma NextPointerInside(size: nat, segs: Segs, files: Files, addr: U64, fresh_: FileTableSegment)
    requires TableShape(segs) && addr > 0 && fresh_.nextSegmentAddr.None?
    requires Layout(size, Extended(segs, addr, fresh_), files)
    ensures var segs', last := Extended(segs, addr, fresh_), |segs| - 1;
            var at := SegmentAddr(segs, last);
            && at + 8 <= at + EncodedLen(segs[last]) <= size
            && Untouched(segs', files, Extent(at, 8), Some(SegmentOwner(last)))
  {
    hide SegmentAddr;
    var segs', last := Extended(segs, addr, fresh_), |segs| - 1;
    var at := SegmentAddr(segs, last);
    ExtendedLayout(segs, addr, fresh_, files);
    assert ExtentOf(segs', files, SegmentOwner(last)) == Extent(at, EncodedLen(segs[last]));
    InsideUntouched(size, segs', files, SegmentOwner(last), Extent(at, 8));
  }

  lemma StoredElsewhere(disk: seq<Byte>, disk': seq<Byte>, segs: Segs, files: Files, addr: U64, fresh_: FileTableSegment)
    requires TableShape(segs) && addr > 0 && fresh_.nextSegmentAddr.None?
    requires OnDisk(disk, segs) && At(disk, addr, EncodeSegment(fresh_))
    requires Kept(disk, disk', Extended(segs, addr, fresh_), files, Some(SegmentOwner(|segs| - 1)))
    requires At(disk', SegmentAddr(segs, |segs| - 1), EncodeSegment(Extended(segs, addr, fresh_)[|segs| - 1]))
    ensures OnDisk(disk', Extended(segs, addr, fresh_))
  {
    hide EncodeSegment, EncodeHeader, At, SegmentAddr, Kept, Extended, ExtentOf;
    var segs', last := Extended(segs, addr, fresh_), |segs| - 1;
    ExtendedLayout(segs, addr, fresh_, files);
    KeptHeader(disk, disk', segs', files, Some(SegmentOwner(last)));
    forall i | 0 <= i < |segs'|
      ensures At(disk', SegmentAddr(segs', i), EncodeSegment(segs'[i]))
    {
      if i != last {
        assert At(disk, SegmentAddr(segs', i), EncodeSegment(segs'[i]));
        KeptSegment(disk, disk', segs', files, Some(SegmentOwner(last)), i);
      }
    }
  }
}
