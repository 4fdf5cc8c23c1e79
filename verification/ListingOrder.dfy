/** The order of a listing, said of the items and the bytes of their names alone. */
module ListingOrders {
  import opened Sorting
  import opened Names
  import opened Entries
  import opened FileTable
  import opened Routes
  import opened Listings

  /** Of two items of one directory: directories before files, and then the names decide, byte by byte. */
  ghost predicate SiblingBefore(x: Item, y: Item) {
    && x.Parent() == y.Parent()
    && if x.DirItem? != y.DirItem? then x.DirItem?
       else x.Name() != y.Name() && (IsPrefix(x.Name(), y.Name()) || SmallerAtDifference(x.Name(), y.Name()))
  }

  /** `y` is `x`, or lies below it. */
  ghost predicate AtOrBelow(t: Tree, y: Item, x: Item) {
    y == x || (x.DirItem? && Within(t, y.Parent(), NonRoot(x.dir.id)))
  }

  /** `x` comes first: as `y` lies below it, or as they lie at or below two siblings of which the one of `x` comes first. */
  ghost predicate Precedes(t: Tree, x: Item, y: Item) {
    || (x != y && AtOrBelow(t, y, x))
    || exists a, b :: Live(t, a) && Live(t, b) && SiblingBefore(a, b) && AtOrBelow(t, x, a) && AtOrBelow(t, y, b)
  }

  ghost predicate InTreeOrder(t: Tree, items: seq<Item>) {
    forall i, j :: 0 <= i < j < |items| ==> Precedes(t, items[i], items[j])
  }

  /** Each of `a` precedes each of `b`. */
  ghost predicate AllPrecede(t: Tree, a: seq<Item>, b: seq<Item>) {
    forall x, y :: x in a && y in b ==> Precedes(t, x, y)
  }

  lemma InOrderConcat(t: Tree, a: seq<Item>, b: seq<Item>)
    requires InTreeOrder(t, a) && InTreeOrder(t, b) && AllPrecede(t, a, b)
    ensures InTreeOrder(t, a + b)
  {
    hide Precedes;
    var all := a + b;
    forall i, j | 0 <= i < j < |all|
      ensures Precedes(t, all[i], all[j])
    {
      if j >= |a| > i {
        assert all[i] in a && all[j] in b;
      }
    }
  }

  /** The listing is in tree order: items before what is below them, directories before files, names ascending. */
  lemma {:induction false} ListingInOrder(t: Tree, ref: DirRef)
    requires t.Ok()
    ensures InTreeOrder(t, Listing(t, ref))
    decreases if RefNumber(ref) < t.nextId then t.nextId - RefNumber(ref) else 0, 1, 0
  {
    hide TreeOk, ListDirs, InTreeOrder, AllPrecede, ListedBy, DirsAbove;
    var ids, files := ChildDirs(t, ref), FileItems(t.files, ChildFiles(t, ref));
    ChildDirsAscend(t, ref);
    DirsInOrder(t, ref, ids);
    FilesInOrder(t, ref);
    DirsBeforeFiles(t, ref);
    InOrderConcat(t, ListDirs(t, RefNumber(ref), ids), files);
  }

  lemma ChildDirsAscend(t: Tree, ref: DirRef)
    requires t.Ok()
    ensures Ascending(ByName(DirNames(t.dirs)), ChildDirs(t, ref))
    ensures forall id :: id in ChildDirs(t, ref) <==> id in DirsIn(t.dirs, ref)
  {
    hide TreeOk;
  }

  lemma {:induction false} DirsInOrder(t: Tree, ref: DirRef, ids: seq<Id>)
    requires t.Ok() && DirsAbove(t, RefNumber(ref), ids)
    requires (forall id :: id in ids ==> id in DirsIn(t.dirs, ref)) && Ascending(ByName(DirNames(t.dirs)), ids)
    ensures InTreeOrder(t, ListDirs(t, RefNumber(ref), ids))
    decreases if RefNumber(ref) < t.nextId then t.nextId - RefNumber(ref) else 0, 0, |ids|
  {
    hide TreeOk, Listing, InTreeOrder, AllPrecede, ByName, Precedes;
    if ids == [] {
      NothingInOrder(t);
    } else {
      var id, rest := ids[0], ids[1..];
      assert id in ids && forall i :: i in rest ==> i in ids;
      var head, below, after := DirItem(t.dirs[id]), Listing(t, NonRoot(id)), ListDirs(t, RefNumber(ref), rest);
      assert Ascending(ByName(DirNames(t.dirs)), rest);
      ListingInOrder(t, NonRoot(id));
      DirsInOrder(t, ref, rest);
      HeadFirst(t, id);
      BranchFirst(t, ref, ids);
      InOrderConcat(t, [head], below);
      InOrderConcat(t, [head] + below, after);
    }
  }

  lemma NothingInOrder(t: Tree)
    ensures InTreeOrder(t, [])
  {
  }

  /** A directory precedes what is below it. */
  lemma HeadFirst(t: Tree, id: Id)
    requires t.Ok() && id in t.dirs
    ensures InTreeOrder(t, [DirItem(t.dirs[id])])
    ensures AllPrecede(t, [DirItem(t.dirs[id])], Listing(t, NonRoot(id)))
  {
    hide TreeOk, Listing, Within;
    var head := DirItem(t.dirs[id]);
    Climb(t.dirs, t.files, t.nextId, DirId(id));
    forall y | y in Listing(t, NonRoot(id))
      ensures Precedes(t, head, y)
    {
      ListingMembers(t, NonRoot(id), y);
      WithinIsYounger(t, y.Parent(), NonRoot(id));
    }
  }

  /** A directory and all that is below it precede the later siblings and all that is below these. */
  lemma BranchFirst(t: Tree, ref: DirRef, ids: seq<Id>)
    requires t.Ok() && DirsAbove(t, RefNumber(ref), ids) && ids != []
    requires (forall id :: id in ids ==> id in DirsIn(t.dirs, ref)) && Ascending(ByName(DirNames(t.dirs)), ids)
    requires DirsAbove(t, RefNumber(ref), ids[1..])
    ensures AllPrecede(t, [DirItem(t.dirs[ids[0]])] + Listing(t, NonRoot(ids[0])), ListDirs(t, RefNumber(ref), ids[1..]))
  {
    hide TreeOk, Listing, ListDirs, Precedes, ByName, AtOrBelow;
    assert ids[0] in ids;
    LiveDir(t, ref, ids[0]);
    var branch, after := [DirItem(t.dirs[ids[0]])] + Listing(t, NonRoot(ids[0])), ListDirs(t, RefNumber(ref), ids[1..]);
    forall x, y | x in branch && y in after
      ensures Precedes(t, x, y)
    {
      InBranch(t, ids[0], x);
      var id := BranchOf(t, RefNumber(ref), ids[1..], y);
      LaterSibling(t, ref, ids, id);
      BranchesPrecede(t, x, y, DirItem(t.dirs[ids[0]]), DirItem(t.dirs[id]));
    }
  }

  lemma InBranch(t: Tree, id: Id, x: Item)
    requires t.Ok() && id in t.dirs && t.dirs[id].id == id
    requires x in [DirItem(t.dirs[id])] + Listing(t, NonRoot(id))
    ensures AtOrBelow(t, x, DirItem(t.dirs[id]))
  {
    hide TreeOk, Listing, Within;
    ListingMembers(t, NonRoot(id), x);
  }

  lemma BranchOf(t: Tree, low: nat, ids: seq<Id>, y: Item) returns (id: Id)
    requires t.Ok() && DirsAbove(t, low, ids) && y in ListDirs(t, low, ids)
    ensures id in ids && id in t.dirs && AtOrBelow(t, y, DirItem(t.dirs[id]))
  {
    hide TreeOk, ListDirs, Within;
    ListDirsMembers(t, low, ids, y);
    id :| id in ids && id in t.dirs && (y == DirItem(t.dirs[id]) || Listed(t, y, NonRoot(id)));
    Climb(t.dirs, t.files, t.nextId, DirId(id));
  }

  lemma BranchesPrecede(t: Tree, x: Item, y: Item, a: Item, b: Item)
    requires Live(t, a) && Live(t, b) && SiblingBefore(a, b) && AtOrBelow(t, x, a) && AtOrBelow(t, y, b)
    ensures Precedes(t, x, y)
  {
  }

  lemma LiveDir(t: Tree, ref: DirRef, id: Id)
    requires t.Ok() && id in DirsIn(t.dirs, ref)
    ensures id in t.dirs && t.dirs[id].id == id && t.dirs[id].parentDir == ref && Live(t, DirItem(t.dirs[id]))
  {
    hide TreeOk;
    Climb(t.dirs, t.files, t.nextId, DirId(id));
  }

  lemma LaterSibling(t: Tree, ref: DirRef, ids: seq<Id>, id: Id)
    requires t.Ok() && ids != [] && id in ids[1..] && (forall id :: id in ids ==> id in DirsIn(t.dirs, ref))
    requires Ascending(ByName(DirNames(t.dirs)), ids)
    ensures ids[0] in t.dirs && id in t.dirs
    ensures SiblingBefore(DirItem(t.dirs[ids[0]]), DirItem(t.dirs[id])) && Live(t, DirItem(t.dirs[id]))
  {
    hide TreeOk, DirsIn, NameLeq, IsPrefix, SmallerAtDifference;
    var k :| 0 <= k < |ids| - 1 && ids[1..][k] == id;
    assert ids[k + 1] == id && ids[0] in ids && ids[k + 1] in ids;
    LiveDir(t, ref, ids[0]);
    LiveDir(t, ref, id);
    assert ByName(DirNames(t.dirs))(ids[0], ids[k + 1]);
    NameLeqMeans(t.dirs[ids[0]].name, t.dirs[id].name);
  }

  lemma FilesInOrder(t: Tree, ref: DirRef)
    requires t.Ok()
    ensures InTreeOrder(t, FileItems(t.files, ChildFiles(t, ref)))
  {
    hide TreeOk, Precedes, SiblingBefore, AtOrBelow;
    var ids := ChildFiles(t, ref);
    var items := FileItems(t.files, ids);
    forall i, j | 0 <= i < j < |items|
      ensures Precedes(t, items[i], items[j])
    {
      FilesAscend(t, ref, i, j);
      Itself(t, items[i]);
      Itself(t, items[j]);
      BranchesPrecede(t, items[i], items[j], items[i], items[j]);
    }
  }

  lemma FilesAscend(t: Tree, ref: DirRef, i: nat, j: nat)
    requires t.Ok() && i < j < |ChildFiles(t, ref)|
    ensures var items := FileItems(t.files, ChildFiles(t, ref));
            SiblingBefore(items[i], items[j]) && Live(t, items[i]) && Live(t, items[j])
  {
    hide TreeOk, NameLeq, IsPrefix, SmallerAtDifference;
    var ids := ChildFiles(t, ref);
    assert ids[i] in ids && ids[j] in ids;
    ChildFileIsLive(t, ref, ids[i]);
    ChildFileIsLive(t, ref, ids[j]);
    assert ByName(FileNames(t.files))(ids[i], ids[j]);
    NameLeqMeans(t.files[ids[i]].name, t.files[ids[j]].name);
  }

  /** All that is at or below the directories of a directory precedes its files. */
  lemma DirsBeforeFiles(t: Tree, ref: DirRef)
    requires t.Ok()
    ensures AllPrecede(t, ListDirs(t, RefNumber(ref), ChildDirs(t, ref)), FileItems(t.files, ChildFiles(t, ref)))
  {
    hide TreeOk, ChildDirs, ChildFiles, FileItems, ListDirs, Precedes, AtOrBelow;
    ChildDirsAscend(t, ref);
    assert DirsAbove(t, RefNumber(ref), ChildDirs(t, ref));
    forall x, y | x in ListDirs(t, RefNumber(ref), ChildDirs(t, ref)) && y in FileItems(t.files, ChildFiles(t, ref))
      ensures Precedes(t, x, y)
    {
      var id := BranchOf(t, RefNumber(ref), ChildDirs(t, ref), x);
      LiveDir(t, ref, id);
      IsChildFile(t, ref, y);
      FileIsLive(t, ref, y);
      Itself(t, y);
      BranchesPrecede(t, x, y, DirItem(t.dirs[id]), y);
    }
  }

  lemma Itself(t: Tree, x: Item)
    ensures AtOrBelow(t, x, x)
  {
  }

  lemma FileIsLive(t: Tree, ref: DirRef, y: Item)
    requires t.Ok() && y in FileItems(t.files, ChildFiles(t, ref))
    ensures Live(t, y)
  {
    hide TreeOk, ChildFiles;
    var ids := ChildFiles(t, ref);
    var i :| 0 <= i < |ids| && FileItems(t.files, ids)[i] == y;
    assert ids[i] in ids;
    ChildFileIsLive(t, ref, ids[i]);
  }

  // -- There is only one such order --------------------------------------------------------------

  lemma {:induction false} WithinTransitive(t: Tree, ref: DirRef, mid: DirRef, top: DirRef)
    requires Within(t, ref, mid) && Within(t, mid, top)
    ensures Within(t, ref, top)
    decreases RefNumber(ref)
  {
    if ref != mid {
      WithinTransitive(t, t.dirs[ref.id].parentDir, mid, top);
    }
  }

  /** What a directory lies below is on one line. */
  lemma {:induction false} OnOneLine(t: Tree, ref: DirRef, a: DirRef, b: DirRef)
    requires Within(t, ref, a) && Within(t, ref, b)
    ensures Within(t, a, b) || Within(t, b, a)
    decreases RefNumber(ref)
  {
    if ref != a && ref != b {
      OnOneLine(t, t.dirs[ref.id].parentDir, a, b);
    }
  }

  /** A live item is younger than its parent, and a live directory is at or below what its parent is at or below. */
  lemma Younger(t: Tree, x: Item)
    requires t.Ok() && Live(t, x)
    ensures RefNumber(x.Parent()) < x.Id().n
    ensures x.DirItem? ==> x.dir.id in t.dirs && t.dirs[x.dir.id] == x.dir
    ensures x.DirItem? ==>
              forall top :: Within(t, NonRoot(x.dir.id), top) <==> top == NonRoot(x.dir.id) || Within(t, x.Parent(), top)
  {
    hide TreeOk;
    Climb(t.dirs, t.files, t.nextId, x.Id());
  }

  lemma BelowTransitive(t: Tree, x: Item, y: Item, z: Item)
    requires t.Ok() && Live(t, y) && AtOrBelow(t, x, y) && AtOrBelow(t, y, z)
    ensures AtOrBelow(t, x, z)
  {
    hide TreeOk, Within;
    if x != y && y != z {
      Younger(t, y);
      WithinTransitive(t, x.Parent(), NonRoot(y.dir.id), NonRoot(z.dir.id));
    }
  }

  /** What is strictly below a directory is younger. */
  lemma BelowIsYounger(t: Tree, x: Item, y: Item)
    requires t.Ok() && Live(t, x) && AtOrBelow(t, x, y) && x != y
    ensures y.Id().n <= RefNumber(x.Parent()) < x.Id().n
  {
    hide TreeOk, Within;
    Younger(t, x);
    WithinIsYounger(t, x.Parent(), NonRoot(y.dir.id));
  }

  /** An item is at or below one child of a directory only. */
  lemma OneSibling(t: Tree, x: Item, a: Item, b: Item)
    requires t.Ok() && Live(t, x) && Live(t, a) && Live(t, b) && a.Parent() == b.Parent()
    requires AtOrBelow(t, x, a) && AtOrBelow(t, x, b)
    ensures a == b
  {
    hide TreeOk, Within;
    Younger(t, a);
    Younger(t, b);
    if x == a && x != b {
      BelowIsYounger(t, x, b);
    } else if x == b && x != a {
      BelowIsYounger(t, x, a);
    } else if x != a {
      OneBranch(t, x.Parent(), a.Parent(), a.dir.id, b.dir.id);
    }
  }

  lemma Comparable(t: Tree, x: Item, a: Item, b: Item)
    requires t.Ok() && Live(t, x) && Live(t, a) && Live(t, b) && AtOrBelow(t, x, a) && AtOrBelow(t, x, b)
    ensures AtOrBelow(t, a, b) || AtOrBelow(t, b, a)
  {
    hide TreeOk, Within;
    if x != a && x != b {
      OnOneLine(t, x.Parent(), NonRoot(a.dir.id), NonRoot(b.dir.id));
      Younger(t, a);
      Younger(t, b);
    }
  }

  lemma SiblingsOneWay(a: Item, b: Item)
    requires SiblingBefore(a, b)
    ensures !SiblingBefore(b, a) && a != b
  {
    hide IsPrefix, SmallerAtDifference;
    NameLeqMeans(a.Name(), b.Name());
    NameLeqMeans(b.Name(), a.Name());
    if SiblingBefore(b, a) && a.DirItem? == b.DirItem? {
      NameLeqAntisymmetric(a.Name(), b.Name());
    }
  }

  /** Siblings that come first the one way for `x` and `y` do not come first the other way for items below. */
  lemma BranchesOneWay(t: Tree, x: Item, y: Item, a: Item, b: Item)
    requires t.Ok() && Live(t, x) && Live(t, y) && Live(t, a) && Live(t, b)
    requires SiblingBefore(a, b) && AtOrBelow(t, x, a) && AtOrBelow(t, y, b)
    ensures !AtOrBelow(t, x, y) && !AtOrBelow(t, y, x)
  {
    hide TreeOk, SiblingBefore, AtOrBelow;
    SiblingsOneWay(a, b);
    SameParent(a, b);
    if AtOrBelow(t, x, y) {
      BelowTransitive(t, x, y, b);
      OneSibling(t, x, a, b);
    }
    if AtOrBelow(t, y, x) {
      BelowTransitive(t, y, x, a);
      OneSibling(t, y, a, b);
    }
  }

  lemma SameParent(a: Item, b: Item)
    requires SiblingBefore(a, b)
    ensures a.Parent() == b.Parent()
  {
  }

  lemma TwoBranchings(t: Tree, x: Item, y: Item, a: Item, b: Item, c: Item, d: Item)
    requires t.Ok() && Live(t, x) && Live(t, y) && Live(t, a) && Live(t, b) && Live(t, c) && Live(t, d)
    requires SiblingBefore(a, b) && AtOrBelow(t, x, a) && AtOrBelow(t, y, b)
    requires AtOrBelow(t, y, c) && AtOrBelow(t, x, d)
    ensures !SiblingBefore(c, d)
  {
    hide TreeOk, SiblingBefore, AtOrBelow;
    if SiblingBefore(c, d) {
      SiblingsOneWay(a, b);
      SiblingsOneWay(c, d);
      SameParent(a, b);
      SameParent(c, d);
      Comparable(t, x, a, d);
      if a == d {
        OneSibling(t, y, b, c);
      } else if AtOrBelow(t, a, d) {
        SiblingBelow(t, a, b, d);
        BelowTransitive(t, y, b, d);
        OneSibling(t, y, c, d);
      } else {
        SiblingBelow(t, d, c, a);
        BelowTransitive(t, y, c, a);
        OneSibling(t, y, a, b);
      }
    }
  }

  /** What is strictly above an item is above its siblings. */
  lemma SiblingBelow(t: Tree, a: Item, b: Item, top: Item)
    requires AtOrBelow(t, a, top) && a != top && a.Parent() == b.Parent()
    ensures AtOrBelow(t, b, top)
  {
  }

  /** Of two live items only one can precede the other. */
  lemma PrecedesOneWay(t: Tree, x: Item, y: Item)
    requires t.Ok() && Live(t, x) && Live(t, y) && Precedes(t, x, y)
    ensures !Precedes(t, y, x)
  {
    hide TreeOk, SiblingBefore, AtOrBelow, Live;
    if x != y && AtOrBelow(t, y, x) {
      if x != y && AtOrBelow(t, x, y) {
        BelowIsYounger(t, x, y);
        BelowIsYounger(t, y, x);
      }
      forall c, d | Live(t, c) && Live(t, d) && SiblingBefore(c, d) && AtOrBelow(t, y, c) && AtOrBelow(t, x, d)
        ensures false
      {
        BranchesOneWay(t, y, x, c, d);
      }
    } else {
      var a, b :| Live(t, a) && Live(t, b) && SiblingBefore(a, b) && AtOrBelow(t, x, a) && AtOrBelow(t, y, b);
      BranchesOneWay(t, x, y, a, b);
      forall c, d | Live(t, c) && Live(t, d) && SiblingBefore(c, d) && AtOrBelow(t, y, c) && AtOrBelow(t, x, d)
        ensures false
      {
        TwoBranchings(t, x, y, a, b, c, d);
      }
    }
  }

  /** In a listing the item that precedes another one stands before it. */
  lemma StandsBefore(t: Tree, ref: DirRef, x: Item, y: Item) returns (i: nat, j: nat)
    requires t.Ok() && x in Listing(t, ref) && y in Listing(t, ref) && Precedes(t, x, y)
    ensures i < j < |Listing(t, ref)| && Listing(t, ref)[i] == x && Listing(t, ref)[j] == y
  {
    hide TreeOk, Listing, Precedes;
    ListingMembers(t, ref, x);
    ListingMembers(t, ref, y);
    PrecedesOneWay(t, x, y);
    ListingInOrder(t, ref);
    i :| 0 <= i < |Listing(t, ref)| && Listing(t, ref)[i] == x;
    j :| 0 <= j < |Listing(t, ref)| && Listing(t, ref)[j] == y;
  }

  lemma TreeOrderOrders(t: Tree, ref: DirRef, before: (Item, Item) -> bool, members: set<Item>)
    requires t.Ok() && before == ((x: Item, y: Item) => Precedes(t, x, y))
    requires forall x :: x in members <==> x in Listing(t, ref)
    ensures Orders(before, members)
  {
    hide TreeOk, Listing, Precedes;
    var all := Listing(t, ref);
    ListingInOrder(t, ref);
    forall x, y | x in members && y in members
      ensures x != y ==> before(x, y) || before(y, x)
      ensures before(x, y) ==> !before(y, x)
    {
      ListingMembers(t, ref, x);
      ListingMembers(t, ref, y);
      var i :| 0 <= i < |all| && all[i] == x;
      var j :| 0 <= j < |all| && all[j] == y;
      if before(x, y) {
        PrecedesOneWay(t, x, y);
      }
    }
    forall x, y, z | x in members && y in members && z in members && before(x, y) && before(y, z)
      ensures before(x, z)
    {
      ListingDistinct(t, ref);
      var i, j := StandsBefore(t, ref, x, y);
      var j', k := StandsBefore(t, ref, y, z);
      assert j == j';
    }
  }

  /** The listing is the only sequence of these items that is in tree order. */
  lemma ListingUnique(t: Tree, ref: DirRef, items: seq<Item>)
    requires t.Ok() && InTreeOrder(t, items)
    requires forall x :: x in items <==> x in Listing(t, ref)
    ensures items == Listing(t, ref)
  {
    var before := (x: Item, y: Item) => Precedes(t, x, y);
    var members := set x | x in items;
    hide TreeOk, Listing, Precedes, Orders;
    ListingInOrder(t, ref);
    TreeOrderOrders(t, ref, before, members);
    OrderUnique(before, members, items, Listing(t, ref));
  }
}
