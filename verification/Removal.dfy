/** What the recursive removal of a directory takes away, and what it leaves alone. */
module Removals {
  import opened Wrappers
  import opened Entries
  import opened FileTable
  import opened Layouts
  import opened States

  /** `ref` is the directory `top` or lies below it; parents are older than their children. */
  predicate IsUnder(dirs: Dirs, ref: DirRef, top: Id)
    decreases if ref.Root? then 0 else ref.id
  {
    ref.NonRoot? &&
    (ref.id == top ||
     (ref.id in dirs && (dirs[ref.id].parentDir.NonRoot? ==> dirs[ref.id].parentDir.id < ref.id) &&
      IsUnder(dirs, dirs[ref.id].parentDir, top)))
  }

  ghost predicate Survives(dirs: Dirs, tops: seq<Id>, ref: DirRef) {
    forall n :: 0 <= n < |tops| ==> !IsUnder(dirs, ref, tops[n])
  }

  /** What is left is exactly what is under none of the given directories. */
  ghost predicate PrunedBy(st: State, st': State, tops: seq<Id>) {
    && (forall d :: d in st'.dirs <==> d in st.dirs && Survives(st.dirs, tops, NonRoot(d)))
    && (forall f :: f in st'.files <==> f in st.files && Survives(st.dirs, tops, st.files[f].parentDir))
  }

  ghost predicate SameShape(segs: Segs, segs': Segs) {
    && |segs'| == |segs|
    && forall i :: 0 <= i < |segs| ==>
         && segs'[i].nextSegmentAddr == segs[i].nextSegmentAddr
         && |segs'[i].dirs| == |segs[i].dirs|
         && |segs'[i].files| == |segs[i].files|
  }

  /** The item in a slot before, if it is still alive after. */
  function LeftIn(segs: Segs, dirs': Dirs, files': Files, s: Slot): Option<Item> {
    var item := ItemAt(segs, s);
    if item.Some? && Lookup(dirs', files', item.value.Id()).Some? then item else None
  }

  /** Some items are gone, and their slots empty; nothing else has changed, moved or lost a byte. */
  ghost predicate Shrunk(st: State, st': State) {
    && SameShape(st.segs, st'.segs)
    && (forall k :: Lookup(st'.dirs, st'.files, k).Some? ==> Lookup(st'.dirs, st'.files, k) == Lookup(st.dirs, st.files, k))
    && (forall s :: ItemAt(st'.segs, s) == LeftIn(st.segs, st'.dirs, st'.files, s))
    && (forall f :: f in st'.files ==> Blob(st'.disk, st'.files[f]) == Blob(st.disk, st'.files[f]))
    && st'.nextId == st.nextId && |st'.disk| == |st.disk|
  }

  lemma ShrunkTwice(st: State, st1: State, st2: State)
    requires Shrunk(st, st1) && Shrunk(st1, st2)
    ensures Shrunk(st, st2)
  {
    hide ItemAt, Blob;
    forall k | Lookup(st2.dirs, st2.files, k).Some?
      ensures Lookup(st2.dirs, st2.files, k) == Lookup(st.dirs, st.files, k)
    {
      assert Lookup(st1.dirs, st1.files, k).Some?;
    }
    forall s
      ensures ItemAt(st2.segs, s) == LeftIn(st.segs, st2.dirs, st2.files, s)
    {
      assert ItemAt(st1.segs, s) == LeftIn(st.segs, st1.dirs, st1.files, s);
    }
    forall f | f in st2.files
      ensures Blob(st2.disk, st2.files[f]) == Blob(st.disk, st2.files[f])
    {
      assert Lookup(st2.dirs, st2.files, FileId(f)).Some?;
    }
  }

  lemma ShrunkNothing(st: State, sha3: Hash)
    requires Inv(st, sha3)
    ensures Shrunk(st, st) && PrunedBy(st, st, [])
  {
    InvParts(st, sha3);
    hide Inv, ItemAt, Blob, Lookup;
    assert forall s :: ItemAt(st.segs, s) == LeftIn(st.segs, st.dirs, st.files, s);
  }

  lemma ShapeKeepsAddress(segs: Segs, segs': Segs, s: Slot)
    requires SameShape(segs, segs') && ValidSlot(segs, s)
    ensures ValidSlot(segs', s) && EntryAddr(segs', s) == EntryAddr(segs, s)
  {
  }

  /** Climbing gives the same answer in what is left of the tree. */
  lemma {:induction false} UnderInRest(dirs: Dirs, rest: Dirs, files: Files, nextId: nat, ref: DirRef, top: Id)
    requires TreeOk(rest, files, nextId) && ref in Refs(rest)
    requires forall d :: d in rest ==> d in dirs && dirs[d] == rest[d]
    ensures IsUnder(rest, ref, top) == IsUnder(dirs, ref, top)
    decreases if ref.Root? then 0 else ref.id
  {
    if ref.NonRoot? {
      assert Lookup(rest, files, DirId(ref.id)).Some?;
      var dir := rest[ref.id];
      assert WellPlaced(rest, DirItem(dir), DirId(ref.id), nextId);
      UnderInRest(dirs, rest, files, nextId, dir.parentDir, top);
    }
  }

  lemma PruneMore(st: State, st1: State, st2: State, sha3: Hash, tops: seq<Id>, top: Id)
    requires Inv(st1, sha3)
    requires Shrunk(st, st1) && PrunedBy(st, st1, tops) && PrunedBy(st1, st2, [top])
    ensures PrunedBy(st, st2, tops + [top])
  {
    hide Inv, Shrunk, IsUnder, Survives;
    forall d
      ensures d in st2.dirs <==> d in st.dirs && Survives(st.dirs, tops + [top], NonRoot(d))
    {
      SurvivesMore(st, st1, sha3, tops, top, NonRoot(d));
      if d in st1.dirs {
        LiveParent(st1, sha3, DirId(d));
      }
    }
    forall f
      ensures f in st2.files <==> f in st.files && Survives(st.dirs, tops + [top], st.files[f].parentDir)
    {
      if f in st.files {
        SurvivesMore(st, st1, sha3, tops, top, st.files[f].parentDir);
      }
      if f in st1.files {
        LiveParent(st1, sha3, FileId(f));
        SameFile(st, st1, f);
      }
    }
  }

  lemma SameFile(st: State, st1: State, f: Id)
    requires Shrunk(st, st1) && f in st1.files
    ensures f in st.files && st.files[f] == st1.files[f]
  {
    assert Lookup(st1.dirs, st1.files, FileId(f)).Some?;
  }

  lemma LiveParent(st: State, sha3: Hash, k: ItemId)
    requires Inv(st, sha3) && Lookup(st.dirs, st.files, k).Some?
    ensures Lookup(st.dirs, st.files, k).value.Parent() in Refs(st.dirs)
    ensures k.DirId? ==> NonRoot(k.n) in Refs(st.dirs)
  {
    hide Inv, SlotsMatch, OnDisk, Group, Layout, Tracks, DigestsMatch, TableShape;
    InvParts(st, sha3);
    assert WellPlaced(st.dirs, Lookup(st.dirs, st.files, k).value, k, st.nextId);
  }

  lemma SurvivesMore(st: State, st1: State, sha3: Hash, tops: seq<Id>, top: Id, ref: DirRef)
    requires Inv(st1, sha3) && Shrunk(st, st1)
    ensures ref in Refs(st1.dirs) ==> (Survives(st1.dirs, [top], ref) <==> !IsUnder(st.dirs, ref, top))
    ensures Survives(st.dirs, tops + [top], ref) <==> Survives(st.dirs, tops, ref) && !IsUnder(st.dirs, ref, top)
  {
    hide Inv, SlotsMatch, OnDisk, Group, Layout, Tracks, DigestsMatch, TableShape, ItemAt, Blob, IsUnder;
    InvParts(st1, sha3);
    assert forall d :: d in st1.dirs ==> Lookup(st1.dirs, st1.files, DirId(d)).Some?;
    if ref in Refs(st1.dirs) {
      UnderInRest(st.dirs, st1.dirs, st1.files, st1.nextId, ref, top);
    }
    assert [top][0] == top && (tops + [top])[|tops|] == top;
    assert forall n :: 0 <= n < |tops| ==> (tops + [top])[n] == tops[n];
  }

  // -- Directories and their children ------------------------------------------------------------

  /** To be under a directory is to be that directory, or to be under one of its children. */
  lemma {:induction false} UnderIffUnderChild(dirs: Dirs, files: Files, nextId: nat, ref: DirRef, top: Id, children: seq<Id>)
    requires TreeOk(dirs, files, nextId) && ref in Refs(dirs) && top in dirs
    requires forall d :: d in children <==> d in DirsIn(dirs, NonRoot(top))
    ensures IsUnder(dirs, ref, top) <==> ref == NonRoot(top) || !Survives(dirs, children, ref)
    decreases if ref.Root? then 0 else ref.id
  {
    if ref.NonRoot? {
      assert Lookup(dirs, files, DirId(ref.id)).Some?;
      var dir := dirs[ref.id];
      assert WellPlaced(dirs, DirItem(dir), DirId(ref.id), nextId);
      var parent := dir.parentDir;
      UnderIffUnderChild(dirs, files, nextId, parent, top, children);
      if parent == NonRoot(top) {
        assert ref.id in DirsIn(dirs, NonRoot(top));
        var n :| 0 <= n < |children| && children[n] == ref.id;
        assert IsUnder(dirs, ref, children[n]);
      }
      if !Survives(dirs, children, parent) {
        var n :| 0 <= n < |children| && IsUnder(dirs, parent, children[n]);
        assert IsUnder(dirs, ref, children[n]);
      }
      if !Survives(dirs, children, ref) {
        var n :| 0 <= n < |children| && IsUnder(dirs, ref, children[n]);
        assert children[n] in DirsIn(dirs, NonRoot(top));
        assert IsUnder(dirs, parent, children[n]) || ref.id == children[n];
      }
    }
  }

  lemma {:induction false} UnderIsYounger(dirs: Dirs, ref: DirRef, top: Id)
    requires IsUnder(dirs, ref, top)
    ensures ref.id >= top
    decreases if ref.Root? then 0 else ref.id
  {
    if ref.id != top {
      UnderIsYounger(dirs, dirs[ref.id].parentDir, top);
    }
  }

  /** A directory and its other children survive the removal of one of its children. */
  lemma FamilySurvives(dirs: Dirs, files: Files, nextId: nat, top: Id, children: seq<Id>)
    requires TreeOk(dirs, files, nextId) && top in dirs
    requires forall d :: d in children ==> d in DirsIn(dirs, NonRoot(top))
    ensures Survives(dirs, children, NonRoot(top))
    ensures forall d :: d in DirsIn(dirs, NonRoot(top)) && d !in children ==> Survives(dirs, children, NonRoot(d))
  {
    forall n | 0 <= n < |children|
      ensures !IsUnder(dirs, NonRoot(top), children[n])
    {
      var child := children[n];
      assert child in DirsIn(dirs, NonRoot(top));
      assert Lookup(dirs, files, DirId(child)).Some?;
      assert WellPlaced(dirs, DirItem(dirs[child]), DirId(child), nextId);
      if IsUnder(dirs, NonRoot(top), child) {
        UnderIsYounger(dirs, NonRoot(top), child);
      }
    }
  }

  /** The last step: the emptied directory itself goes. */
  lemma PruneTop(st: State, st1: State, st2: State, sha3: Hash, top: Id, children: seq<Id>, childFiles: seq<Id>)
    requires Inv(st, sha3) && top in st.dirs
    requires forall d :: d in children <==> d in DirsIn(st.dirs, NonRoot(top))
    requires forall f :: f in childFiles <==> f in FilesIn(st.files, NonRoot(top))
    requires PrunedBy(st, st1, children)
    requires st2.dirs == st1.dirs - {top}
    requires forall f :: f in st2.files <==> f in st1.files && f !in childFiles
    ensures PrunedBy(st, st2, [top])
  {
    hide Inv, IsUnder, Survives;
    forall d | d in st.dirs
      ensures d in st2.dirs <==> Survives(st.dirs, [top], NonRoot(d))
    {
      LiveParent(st, sha3, DirId(d));
      SurvivesTop(st, sha3, NonRoot(d), top, children);
    }
    forall f | f in st.files
      ensures f in st2.files <==> Survives(st.dirs, [top], st.files[f].parentDir)
    {
      LiveParent(st, sha3, FileId(f));
      SurvivesTop(st, sha3, st.files[f].parentDir, top, children);
    }
  }

  lemma SurvivesTop(st: State, sha3: Hash, ref: DirRef, top: Id, children: seq<Id>)
    requires Inv(st, sha3) && ref in Refs(st.dirs) && top in st.dirs
    requires forall d :: d in children <==> d in DirsIn(st.dirs, NonRoot(top))
    ensures Survives(st.dirs, [top], ref) <==> ref != NonRoot(top) && Survives(st.dirs, children, ref)
  {
    hide Inv, SlotsMatch, OnDisk, Group, Layout, Tracks, DigestsMatch, TableShape, TreeOk, IsUnder;
    InvParts(st, sha3);
    UnderIffUnderChild(st.dirs, st.files, st.nextId, ref, top, children);
    assert [top][0] == top;
  }

  /** Once the children are gone, the listing is empty. */
  lemma ListingEmptied(st: State, st1: State, top: Id)
    requires Shrunk(st, st1)
    requires forall d :: d in DirsIn(st.dirs, NonRoot(top)) ==> d !in st1.dirs
    requires forall f :: f in FilesIn(st.files, NonRoot(top)) ==> f !in st1.files
    ensures ChildrenOf(st1.dirs, st1.files, NonRoot(top)) == EMPTY_CONTENT
  {
    hide ItemAt, Blob, LeftIn, NamesIn, SameShape;
    forall d | d in st1.dirs
      ensures st1.dirs[d].parentDir != NonRoot(top)
    {
      assert Lookup(st1.dirs, st1.files, DirId(d)) == Lookup(st.dirs, st.files, DirId(d));
    }
    forall f | f in st1.files
      ensures st1.files[f].parentDir != NonRoot(top)
    {
      assert Lookup(st1.dirs, st1.files, FileId(f)) == Lookup(st.dirs, st.files, FileId(f));
    }
    NothingListed(st1.dirs, st1.files, NonRoot(top));
  }

  /** Emptying the slot of one item and dropping the item is a way of shrinking. */
  lemma SlotGone(st: State, st': State, sha3: Hash, s: Slot, k: ItemId)
    requires Inv(st, sha3) && ValidSlot(st.segs, s) && Fits(s, None)
    requires ItemAt(st.segs, s) == Lookup(st.dirs, st.files, k) && ItemAt(st.segs, s).Some?
    requires Changed(st.dirs, st.files, st'.dirs, st'.files, k, None)
    requires st'.segs == SetSlot(st.segs, s, None)
    requires forall f :: f in st'.files ==>
               f in st.files && Contents(st'.disk, st'.files)[f] == Contents(st.disk, st.files)[f]
    requires st'.nextId == st.nextId && |st'.disk| == |st.disk|
    ensures Shrunk(st, st')
  {
    hide Inv, Blob, TableShape, OnDisk, TreeOk, Group, Layout, Tracks, DigestsMatch, Lookup;
    InvParts(st, sha3);
    SetSlotItems(st.segs, s, None);
    assert SameShape(st.segs, st'.segs);
    hide SetSlot, ItemAt, SameShape;
    assert Stored(st.segs, Lookup(st.dirs, st.files, k).value, k);
    forall t
      ensures ItemAt(st'.segs, t) == LeftIn(st.segs, st'.dirs, st'.files, t)
    {
      if t != s && ItemAt(st.segs, t).Some? {
        assert !SameIdentifier(st.segs, s, t);
      }
    }
    forall f | f in st'.files
      ensures Blob(st'.disk, st'.files[f]) == Blob(st.disk, st'.files[f])
    {
      assert st'.files[f] == st.files[f] by {
        LookupFile(st, st', k, f);
      }
    }
  }

  lemma LookupFile(st: State, st': State, k: ItemId, f: Id)
    requires Changed(st.dirs, st.files, st'.dirs, st'.files, k, None) && f in st'.files
    ensures f in st.files && st'.files[f] == st.files[f]
  {
    assert Lookup(st'.dirs, st'.files, FileId(f)).Some?;
  }
}
