/** The recursive listing of a directory: children directories by name, each before its own content, then files by name. */
module Listings {
  import opened Wrappers
  import opened Sequences
  import opened Sorting
  import opened Names
  import opened Entries
  import opened FileTable
  import opened States
  import opened Removals
  import opened Routes

  // -- Sorting by name ---------------------------------------------------------------------------

  function DirNames(dirs: Dirs): map<Id, Name> {
    map id | id in dirs :: dirs[id].name
  }

  function FileNames(files: Files): map<Id, Name> {
    map id | id in files :: files[id].name
  }

  function ByName(names: map<Id, Name>): (Id, Id) -> bool {
    (i, j) => i in names && j in names && names[i] != names[j] && NameLeq(names[i], names[j])
  }

  /** Different names put identifiers in order. */
  lemma NamesOrder(names: map<Id, Name>, members: set<Id>)
    requires members <= names.Keys
    requires forall i, j :: i in members && j in members && names[i] == names[j] ==> i == j
    ensures Orders(ByName(names), members)
  {
    hide NameLeq;
    forall i, j | i in members && j in members
      ensures i != j ==> ByName(names)(i, j) || ByName(names)(j, i)
      ensures ByName(names)(i, j) ==> !ByName(names)(j, i)
    {
      NameLeqTotal(names[i], names[j]);
      if NameLeq(names[i], names[j]) && NameLeq(names[j], names[i]) {
        NameLeqAntisymmetric(names[i], names[j]);
      }
    }
    forall i, j, k | i in members && j in members && k in members && ByName(names)(i, j) && ByName(names)(j, k)
      ensures ByName(names)(i, k)
    {
      NameLeqTransitive(names[i], names[j], names[k]);
    }
  }

  /** The children of a directory have different names. */
  lemma SiblingsOrder(dirs: Dirs, files: Files, nextId: nat, ref: DirRef)
    requires TreeOk(dirs, files, nextId)
    ensures Orders(ByName(DirNames(dirs)), DirsIn(dirs, ref))
    ensures Orders(ByName(FileNames(files)), FilesIn(files, ref))
  {
    forall i, j | i in DirsIn(dirs, ref) && j in DirsIn(dirs, ref) && dirs[i].name == dirs[j].name
      ensures i == j
    {
      assert SameName(dirs, files, DirId(i), DirId(j));
    }
    forall i, j | i in FilesIn(files, ref) && j in FilesIn(files, ref) && files[i].name == files[j].name
      ensures i == j
    {
      assert SameName(dirs, files, FileId(i), FileId(j));
    }
    hide TreeOk, ByName, Orders;
    NamesOrder(DirNames(dirs), DirsIn(dirs, ref));
    NamesOrder(FileNames(files), FilesIn(files, ref));
  }

  // -- The listing -------------------------------------------------------------------------------

  datatype Tree = Tree(dirs: Dirs, files: Files, nextId: nat) {
    ghost predicate Ok() {
      TreeOk(dirs, files, nextId)
    }
  }

  /** Directories of the tree, each younger than `low`. */
  ghost predicate DirsAbove(t: Tree, low: nat, ids: seq<Id>) {
    forall id :: id in ids ==> id in t.dirs && low < id < t.nextId
  }

  ghost function ChildDirs(t: Tree, ref: DirRef): (ids: seq<Id>)
    requires t.Ok()
    ensures DirsAbove(t, RefNumber(ref), ids)
  {
    ChildrenAbove(t, ref);
    SiblingsOrder(t.dirs, t.files, t.nextId, ref);
    Ordered(ByName(DirNames(t.dirs)), DirsIn(t.dirs, ref))
  }

  ghost function ChildFiles(t: Tree, ref: DirRef): (ids: seq<Id>)
    requires t.Ok()
    ensures forall id :: id in ids ==> id in t.files
  {
    SiblingsOrder(t.dirs, t.files, t.nextId, ref);
    Ordered(ByName(FileNames(t.files)), FilesIn(t.files, ref))
  }

  lemma ChildrenAbove(t: Tree, ref: DirRef)
    requires t.Ok()
    ensures forall id :: id in DirsIn(t.dirs, ref) ==> RefNumber(ref) < id < t.nextId
  {
    hide TreeOk;
    forall id | id in DirsIn(t.dirs, ref)
      ensures RefNumber(ref) < id < t.nextId
    {
      assert Lookup(t.dirs, t.files, DirId(id)).Some?;
      Climb(t.dirs, t.files, t.nextId, DirId(id));
    }
  }

  /** All items below a directory. */
  ghost function Listing(t: Tree, ref: DirRef): seq<Item>
    requires t.Ok()
    decreases if RefNumber(ref) < t.nextId then t.nextId - RefNumber(ref) else 0, 1, 0
  {
    ListDirs(t, RefNumber(ref), ChildDirs(t, ref)) + FileItems(t.files, ChildFiles(t, ref))
  }

  /** Each of the directories followed by what is below it. */
  ghost function ListDirs(t: Tree, low: nat, ids: seq<Id>): seq<Item>
    requires t.Ok() && DirsAbove(t, low, ids)
    decreases if low < t.nextId then t.nextId - low else 0, 0, |ids|
  {
    if ids == [] then []
    else
      assert ids[0] in ids && forall id :: id in ids[1..] ==> id in ids;
      [DirItem(t.dirs[ids[0]])] + Listing(t, NonRoot(ids[0])) + ListDirs(t, low, ids[1..])
  }

  // -- What the listing holds --------------------------------------------------------------------

  /** `ref` is `top` or lies below it. */
  ghost predicate Within(t: Tree, ref: DirRef, top: DirRef)
    decreases RefNumber(ref)
  {
    || ref == top
    || (ref.NonRoot? && ref.id in t.dirs && RefNumber(t.dirs[ref.id].parentDir) < ref.id
        && Within(t, t.dirs[ref.id].parentDir, top))
  }

  ghost predicate Live(t: Tree, item: Item) {
    Lookup(t.dirs, t.files, item.Id()) == Some(item)
  }

  lemma {:induction false} WithinIsYounger(t: Tree, ref: DirRef, top: DirRef)
    requires Within(t, ref, top)
    ensures RefNumber(ref) >= RefNumber(top)
    decreases RefNumber(ref)
  {
    if ref != top {
      WithinIsYounger(t, t.dirs[ref.id].parentDir, top);
    }
  }

  /** What lies below a directory lies below one of its children, and below one only. */
  lemma {:induction false} WithinChild(t: Tree, ref: DirRef, top: DirRef) returns (child: Id)
    requires t.Ok() && Within(t, ref, top) && ref != top
    ensures child in DirsIn(t.dirs, top) && Within(t, ref, NonRoot(child))
    decreases RefNumber(ref)
  {
    var parent := t.dirs[ref.id].parentDir;
    if parent == top {
      child := ref.id;
    } else {
      child := WithinChild(t, parent, top);
    }
  }

  lemma {:induction false} OneBranch(t: Tree, ref: DirRef, top: DirRef, a: Id, b: Id)
    requires t.Ok() && a in DirsIn(t.dirs, top) && b in DirsIn(t.dirs, top)
    requires Within(t, ref, NonRoot(a)) && Within(t, ref, NonRoot(b))
    ensures a == b
    decreases RefNumber(ref)
  {
    ChildrenAbove(t, top);
    if ref == NonRoot(a) || ref == NonRoot(b) {
      if a != b {
        WithinIsYounger(t, top, if ref == NonRoot(a) then NonRoot(b) else NonRoot(a));
        assert false;
      }
    } else {
      OneBranch(t, t.dirs[ref.id].parentDir, top, a, b);
    }
  }

  lemma {:induction false} AllWithinRoot(t: Tree, ref: DirRef)
    requires t.Ok() && ref in Refs(t.dirs)
    ensures Within(t, ref, Root)
    decreases RefNumber(ref)
  {
    if ref.NonRoot? {
      assert Lookup(t.dirs, t.files, DirId(ref.id)).Some?;
      Climb(t.dirs, t.files, t.nextId, DirId(ref.id));
      AllWithinRoot(t, t.dirs[ref.id].parentDir);
    }
  }

  ghost predicate Listed(t: Tree, item: Item, ref: DirRef) {
    Live(t, item) && Within(t, item.Parent(), ref)
  }

  /** The items that the directories of a list and their listings hold. */
  ghost predicate ListedBy(t: Tree, item: Item, ids: seq<Id>) {
    exists id :: id in ids && id in t.dirs && (item == DirItem(t.dirs[id]) || Listed(t, item, NonRoot(id)))
  }

  lemma BelowSoListed(t: Tree, ref: DirRef, item: Item)
    requires t.Ok() && Listed(t, item, ref)
    ensures ListedBy(t, item, ChildDirs(t, ref)) || item in FileItems(t.files, ChildFiles(t, ref))
  {
    hide TreeOk, Within;
    if item.Parent() != ref {
      var child := WithinChild(t, item.Parent(), ref);
      assert child in ChildDirs(t, ref) && Listed(t, item, NonRoot(child));
    } else if item.DirItem? {
      assert item.dir.id in DirsIn(t.dirs, ref);
      assert item.dir.id in ChildDirs(t, ref);
    } else {
      var ids := ChildFiles(t, ref);
      assert item.file.id in FilesIn(t.files, ref);
      var i :| 0 <= i < |ids| && ids[i] == item.file.id;
      assert FileItems(t.files, ids)[i] == item;
    }
  }

  lemma ListedSoBelow(t: Tree, ref: DirRef, item: Item)
    requires t.Ok()
    requires ListedBy(t, item, ChildDirs(t, ref)) || item in FileItems(t.files, ChildFiles(t, ref))
    ensures Listed(t, item, ref)
  {
    hide TreeOk, Within, ChildDirs, ChildFiles;
    if ListedBy(t, item, ChildDirs(t, ref)) {
      var id :| id in ChildDirs(t, ref) && id in t.dirs && (item == DirItem(t.dirs[id]) || Listed(t, item, NonRoot(id)));
      ChildDirIsLive(t, ref, id);
      if Listed(t, item, NonRoot(id)) {
        WithinUp(t, item.Parent(), id, ref);
      }
    } else {
      var ids := ChildFiles(t, ref);
      var i :| 0 <= i < |ids| && FileItems(t.files, ids)[i] == item;
      assert ids[i] in ids;
      ChildFileIsLive(t, ref, ids[i]);
    }
  }

  lemma ChildDirIsLive(t: Tree, ref: DirRef, id: Id)
    requires t.Ok() && id in ChildDirs(t, ref)
    ensures id in DirsIn(t.dirs, ref) && Live(t, DirItem(t.dirs[id])) && Listed(t, DirItem(t.dirs[id]), ref)
  {
    hide TreeOk;
    assert Lookup(t.dirs, t.files, DirId(id)).Some?;
    Climb(t.dirs, t.files, t.nextId, DirId(id));
  }

  lemma ChildFileIsLive(t: Tree, ref: DirRef, id: Id)
    requires t.Ok() && id in ChildFiles(t, ref)
    ensures t.files[id].id == id
    ensures id in FilesIn(t.files, ref) && Live(t, FileItem(t.files[id])) && Listed(t, FileItem(t.files[id]), ref)
  {
    hide TreeOk;
    assert Lookup(t.dirs, t.files, FileId(id)).Some?;
    Climb(t.dirs, t.files, t.nextId, FileId(id));
  }

  lemma {:induction false} WithinUp(t: Tree, ref: DirRef, child: Id, top: DirRef)
    requires t.Ok() && child in DirsIn(t.dirs, top) && Within(t, ref, NonRoot(child))
    ensures Within(t, ref, top) && ref != top
    decreases RefNumber(ref)
  {
    ChildrenAbove(t, top);
    WithinIsYounger(t, ref, NonRoot(child));
    if ref != NonRoot(child) {
      WithinUp(t, t.dirs[ref.id].parentDir, child, top);
    }
  }

  /** The listing holds exactly the items below the directory. */
  lemma {:induction false} ListingMembers(t: Tree, ref: DirRef, item: Item)
    requires t.Ok()
    ensures item in Listing(t, ref) <==> Listed(t, item, ref)
    decreases if RefNumber(ref) < t.nextId then t.nextId - RefNumber(ref) else 0, 1, 0
  {
    hide TreeOk, ListDirs, Within, Listed, ListedBy;
    ListDirsMembers(t, RefNumber(ref), ChildDirs(t, ref), item);
    if Listed(t, item, ref) {
      BelowSoListed(t, ref, item);
    }
    if ListedBy(t, item, ChildDirs(t, ref)) || item in FileItems(t.files, ChildFiles(t, ref)) {
      ListedSoBelow(t, ref, item);
    }
  }

  lemma {:induction false} ListDirsMembers(t: Tree, low: nat, ids: seq<Id>, item: Item)
    requires t.Ok() && DirsAbove(t, low, ids)
    ensures item in ListDirs(t, low, ids) <==> ListedBy(t, item, ids)
    decreases if low < t.nextId then t.nextId - low else 0, 0, |ids|
  {
    hide TreeOk, Listing, Within, Listed;
    if ids != [] {
      assert ids[0] in ids && forall id :: id in ids <==> id == ids[0] || id in ids[1..];
      ListingMembers(t, NonRoot(ids[0]), item);
      ListDirsMembers(t, low, ids[1..], item);
    }
  }

  /** No item is listed twice. */
  lemma {:induction false} ListingDistinct(t: Tree, ref: DirRef)
    requires t.Ok()
    ensures Distinct(Listing(t, ref))
    decreases if RefNumber(ref) < t.nextId then t.nextId - RefNumber(ref) else 0, 1, 0
  {
    hide TreeOk, ListDirs, Within, Distinct, Listed, Live;
    var ids, files := ChildDirs(t, ref), ChildFiles(t, ref);
    ListDirsDistinct(t, ref, ids);
    FilesDistinct(t, ref);
    forall item | item in ListDirs(t, RefNumber(ref), ids)
      ensures item !in FileItems(t.files, files)
    {
      ListDirsMembers(t, RefNumber(ref), ids, item);
      FileNotDeeper(t, ref, item);
    }
    DistinctConcat(ListDirs(t, RefNumber(ref), ids), FileItems(t.files, files));
  }

  lemma FilesDistinct(t: Tree, ref: DirRef)
    requires t.Ok()
    ensures Distinct(FileItems(t.files, ChildFiles(t, ref)))
  {
    hide TreeOk, Listed, Live;
    var ids := ChildFiles(t, ref);
    forall i | 0 <= i < |ids|
      ensures t.files[ids[i]].id == ids[i]
    {
      assert ids[i] in ids;
      ChildFileIsLive(t, ref, ids[i]);
    }
  }

  /** What lies below the child directories is not a file of the directory itself. */
  lemma FileNotDeeper(t: Tree, ref: DirRef, item: Item)
    requires t.Ok() && ListedBy(t, item, ChildDirs(t, ref))
    ensures item !in FileItems(t.files, ChildFiles(t, ref))
  {
    hide TreeOk, Within;
    var id :| id in ChildDirs(t, ref) && id in t.dirs && (item == DirItem(t.dirs[id]) || Listed(t, item, NonRoot(id)));
    if Listed(t, item, NonRoot(id)) {
      WithinIsYounger(t, item.Parent(), NonRoot(id));
    }
    if item in FileItems(t.files, ChildFiles(t, ref)) {
      IsChildFile(t, ref, item);
    }
  }

  lemma IsChildFile(t: Tree, ref: DirRef, item: Item)
    requires t.Ok() && item in FileItems(t.files, ChildFiles(t, ref))
    ensures item.FileItem? && item.Parent() == ref
  {
    hide TreeOk;
    var ids := ChildFiles(t, ref);
    assert forall i :: 0 <= i < |ids| ==> ids[i] in FilesIn(t.files, ref);
  }

  lemma {:induction false} ListDirsDistinct(t: Tree, top: DirRef, ids: seq<Id>)
    requires t.Ok() && DirsAbove(t, RefNumber(top), ids)
    requires Distinct(ids) && forall id :: id in ids ==> id in DirsIn(t.dirs, top)
    ensures Distinct(ListDirs(t, RefNumber(top), ids))
    decreases if RefNumber(top) < t.nextId then t.nextId - RefNumber(top) else 0, 0, |ids|
  {
    hide TreeOk, Listing, Within, Listed;
    if ids != [] {
      var id, rest := ids[0], ids[1..];
      assert id in ids && forall i :: i in rest ==> i in ids;
      ListingDistinct(t, NonRoot(id));
      ListDirsDistinct(t, top, rest);
      var head, below, after := DirItem(t.dirs[id]), Listing(t, NonRoot(id)), ListDirs(t, RefNumber(top), rest);
      forall item
        ensures item in below ==> item != head
        ensures item in below + [head] ==> item !in after
      {
        Branches(t, top, ids, item);
      }
      DistinctConcat([head], below);
      DistinctConcat([head] + below, after);
    }
  }

  /** A directory, what is below it, and what comes after it have nothing in common. */
  lemma Branches(t: Tree, top: DirRef, ids: seq<Id>, item: Item)
    requires t.Ok() && ids != [] && DirsAbove(t, RefNumber(top), ids) && DirsAbove(t, RefNumber(top), ids[1..])
    requires Distinct(ids) && forall id :: id in ids ==> id in DirsIn(t.dirs, top)
    requires ids[0] in t.dirs
    ensures item in Listing(t, NonRoot(ids[0])) ==> item != DirItem(t.dirs[ids[0]])
    ensures item in Listing(t, NonRoot(ids[0])) || item == DirItem(t.dirs[ids[0]]) ==>
              item !in ListDirs(t, RefNumber(top), ids[1..])
  {
    hide TreeOk, Listing, ListDirs, Within;
    var id := ids[0];
    assert id in ids;
    ChildrenAbove(t, top);
    ListingMembers(t, NonRoot(id), item);
    ListDirsMembers(t, RefNumber(top), ids[1..], item);
    if Listed(t, item, NonRoot(id)) {
      WithinIsYounger(t, item.Parent(), NonRoot(id));
    }
    if ListedBy(t, item, ids[1..]) {
      var other :| other in ids[1..] && other in t.dirs && (item == DirItem(t.dirs[other]) || Listed(t, item, NonRoot(other)));
      var j :| 0 <= j < |ids[1..]| && ids[1..][j] == other;
      assert ids[j + 1] in ids && ids[j + 1] != id;
      Climb(t.dirs, t.files, t.nextId, DirId(id));
      Climb(t.dirs, t.files, t.nextId, DirId(other));
      if Listed(t, item, NonRoot(other)) {
        WithinIsYounger(t, item.Parent(), NonRoot(other));
        if Listed(t, item, NonRoot(id)) {
          OneBranch(t, item.Parent(), top, id, other);
          assert false;
        }
      }
    }
  }

  /** From the root, the listing holds every live item exactly once. */
  lemma WholeListing(t: Tree)
    requires t.Ok()
    ensures Distinct(Listing(t, Root))
    ensures forall item :: item in Listing(t, Root) <==> Live(t, item)
  {
    hide TreeOk, Listing, Within;
    ListingDistinct(t, Root);
    forall item
      ensures item in Listing(t, Root) <==> Live(t, item)
    {
      ListingMembers(t, Root, item);
      if Live(t, item) {
        Climb(t.dirs, t.files, t.nextId, item.Id());
        AllWithinRoot(t, item.Parent());
      }
    }
  }

  // -- Parents come first ------------------------------------------------------------------------

  ghost predicate Announced(items: seq<Item>, i: nat)
    requires i < |items|
  {
    exists j :: 0 <= j < i && items[j].DirItem? && items[i].Parent() == NonRoot(items[j].dir.id)
  }

  /** Each item is in the top directory, or in one that came before. */
  ghost predicate ParentsFirst(items: seq<Item>, top: DirRef) {
    forall i :: 0 <= i < |items| ==> items[i].Parent() == top || Announced(items, i)
  }

  lemma ParentsFirstConcat(a: seq<Item>, b: seq<Item>, top: DirRef)
    requires ParentsFirst(a, top) && ParentsFirst(b, top)
    ensures ParentsFirst(a + b, top)
  {
    forall i | 0 <= i < |a + b|
      ensures (a + b)[i].Parent() == top || Announced(a + b, i)
    {
      if i < |a| && a[i].Parent() != top {
        assert Announced(a, i);
        var j :| 0 <= j < i && a[j].DirItem? && a[i].Parent() == NonRoot(a[j].dir.id);
        assert (a + b)[j] == a[j];
      } else if i >= |a| && b[i - |a|].Parent() != top {
        assert Announced(b, i - |a|);
        var j :| 0 <= j < i - |a| && b[j].DirItem? && b[i - |a|].Parent() == NonRoot(b[j].dir.id);
        assert (a + b)[|a| + j] == b[j];
      }
    }
  }

  lemma ParentsFirstBelow(head: Directory, below: seq<Item>)
    requires ParentsFirst(below, NonRoot(head.id))
    ensures ParentsFirst([DirItem(head)] + below, head.parentDir)
  {
    var items := [DirItem(head)] + below;
    forall i | 0 <= i < |items|
      ensures items[i].Parent() == head.parentDir || Announced(items, i)
    {
      if i > 0 {
        if below[i - 1].Parent() == NonRoot(head.id) {
          assert items[0] == DirItem(head);
        } else {
          assert Announced(below, i - 1);
          var j :| 0 <= j < i - 1 && below[j].DirItem? && below[i - 1].Parent() == NonRoot(below[j].dir.id);
          assert items[j + 1] == below[j];
        }
      }
    }
  }

  /** No item is listed before the directory that it is in. */
  lemma {:induction false} ParentBeforeChild(t: Tree, ref: DirRef)
    requires t.Ok()
    ensures ParentsFirst(Listing(t, ref), ref)
    decreases if RefNumber(ref) < t.nextId then t.nextId - RefNumber(ref) else 0, 1, 0
  {
    hide TreeOk, ListDirs;
    var files := FileItems(t.files, ChildFiles(t, ref));
    ParentBeforeDirs(t, ref, ChildDirs(t, ref));
    assert forall i :: 0 <= i < |files| ==> ChildFiles(t, ref)[i] in FilesIn(t.files, ref);
    ParentsFirstConcat(ListDirs(t, RefNumber(ref), ChildDirs(t, ref)), files, ref);
  }

  lemma {:induction false} ParentBeforeDirs(t: Tree, top: DirRef, ids: seq<Id>)
    requires t.Ok() && DirsAbove(t, RefNumber(top), ids) && forall id :: id in ids ==> id in DirsIn(t.dirs, top)
    ensures ParentsFirst(ListDirs(t, RefNumber(top), ids), top)
    decreases if RefNumber(top) < t.nextId then t.nextId - RefNumber(top) else 0, 0, |ids|
  {
    hide TreeOk, Listing, ParentsFirst;
    if ids == [] {
      assert ParentsFirst([], top) by {
        NothingToAnnounce(top);
      }
    } else {
      assert ids[0] in ids && forall id :: id in ids[1..] ==> id in ids;
      var head := t.dirs[ids[0]];
      Climb(t.dirs, t.files, t.nextId, DirId(ids[0]));
      ParentBeforeChild(t, NonRoot(ids[0]));
      ParentBeforeDirs(t, top, ids[1..]);
      ParentsFirstBelow(head, Listing(t, NonRoot(ids[0])));
      ParentsFirstConcat([DirItem(head)] + Listing(t, NonRoot(ids[0])), ListDirs(t, RefNumber(top), ids[1..]), top);
    }
  }

  lemma NothingToAnnounce(top: DirRef)
    ensures ParentsFirst([], top)
  {
  }

  // -- Removal -----------------------------------------------------------------------------------

  /** Lying below a directory is the same for the listing and for the removal. */
  lemma {:induction false} WithinIsUnder(t: Tree, ref: DirRef, top: Id)
    ensures Within(t, ref, NonRoot(top)) <==> IsUnder(t.dirs, ref, top)
    decreases RefNumber(ref)
  {
    if ref.NonRoot? && ref.id in t.dirs && RefNumber(t.dirs[ref.id].parentDir) < ref.id {
      WithinIsUnder(t, t.dirs[ref.id].parentDir, top);
    }
  }

  /** Removing a directory removes the directory and its listing, and nothing else. */
  lemma RemovalTakesListing(st: State, st': State, id: Id, item: Item)
    requires TreeOk(st.dirs, st.files, st.nextId) && id in st.dirs
    requires PrunedBy(st, st', [id]) && Shrunk(st, st')
    ensures var t := Tree(st.dirs, st.files, st.nextId);
            Lookup(st'.dirs, st'.files, item.Id()) == Some(item) <==>
            Live(t, item) && item != DirItem(st.dirs[id]) && item !in Listing(t, NonRoot(id))
  {
    var t := Tree(st.dirs, st.files, st.nextId);
    hide TreeOk, Listing, Within, IsUnder, Shrunk;
    ListingMembers(t, NonRoot(id), item);
    WithinIsUnder(t, item.Parent(), id);
    Climb(st.dirs, st.files, st.nextId, DirId(id));
    assert [id][0] == id;
    assert forall ref :: Survives(st.dirs, [id], ref) <==> !IsUnder(st.dirs, ref, id);
    KeptItem(st, st', item.Id());
    if Live(t, item) && item.DirItem? {
      Climb(st.dirs, st.files, st.nextId, DirId(item.dir.id));
      UnderParent(t, item.dir.id, id);
    }
  }

  lemma KeptItem(st: State, st': State, k: ItemId)
    requires Shrunk(st, st')
    ensures Lookup(st'.dirs, st'.files, k).Some? ==> Lookup(st'.dirs, st'.files, k) == Lookup(st.dirs, st.files, k)
  {
  }

  lemma UnderParent(t: Tree, id: Id, top: Id)
    requires id in t.dirs && RefNumber(t.dirs[id].parentDir) < id
    ensures IsUnder(t.dirs, NonRoot(id), top) <==> id == top || IsUnder(t.dirs, t.dirs[id].parentDir, top)
  {
  }
}
