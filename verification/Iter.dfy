/** The lazy iterator over the items below a directory: a chain of nested iterators, one for each open directory. */
module Iterators {
  import opened Wrappers
  import opened Sequences
  import opened Sorting
  import opened Names
  import opened Entries
  import opened FileTable
  import opened States
  import opened Operations
  import opened Archives
  import opened Listings
  import opened ListingOrders

  ghost function TreeOf(archive: Archive): Tree
    reads archive
  {
    Tree(archive.dirs, archive.files, archive.nextId)
  }

  datatype IterState = Dirs(curr: Option<ArchiveIter>, next: seq<Id>) | Files(files: seq<Id>)

  class ArchiveIter {
    const archive: Archive
    const dirId: DirRef
    ghost const tree: Tree
    var state: IterState
    ghost var todo: seq<Id>
    ghost var Repr: set<ArchiveIter>

    /** What waits is kept in reverse, as it is popped from the end; nested iterators run over the same tree. */
    ghost predicate Valid()
      reads this, Repr
      decreases Repr
    {
      && this in Repr && tree.Ok() && dirId in Refs(tree.dirs)
      && match state
         case Files(files) => files == Reversed(todo) && forall id :: id in todo ==> id in tree.files
         case Dirs(curr, next) =>
           && next == Reversed(todo) && DirsAbove(tree, RefNumber(dirId), todo)
           && (curr.Some? ==> && curr.value in Repr && curr.value.Repr < Repr && this !in curr.value.Repr
                              && curr.value.archive == archive && curr.value.tree == tree && curr.value.Valid())
    }

    /** The items that are still to come. */
    ghost function Remaining(): seq<Item>
      requires Valid()
      reads this, Repr
      decreases Repr
    {
      match state
      case Files(_) => FileItems(tree.files, todo)
      case Dirs(curr, _) =>
        (if curr.Some? then curr.value.Remaining() else [])
        + ListDirs(tree, RefNumber(dirId), todo)
        + FileItems(tree.files, ChildFiles(tree, dirId))
    }

    constructor Start(archive: Archive, dirId: DirRef, dirs: seq<Id>, ghost todo: seq<Id>)
      requires dirId in Refs(archive.dirs)
      requires TreeOf(archive).Ok() && DirsAbove(TreeOf(archive), RefNumber(dirId), todo) && dirs == Reversed(todo)
      ensures Valid() && fresh(Repr) && this.archive == archive && this.dirId == dirId && tree == TreeOf(archive)
      ensures Remaining() == ListDirs(tree, RefNumber(dirId), todo) + FileItems(tree.files, ChildFiles(tree, dirId))
    {
      hide TreeOk, ListDirs, FileItems, ChildFiles, Ordered, Reversed, DirsAbove;
      this.archive, this.dirId, tree := archive, dirId, TreeOf(archive);
      state := Dirs(None, dirs);
      this.todo := todo;
      Repr := {this};
    }

    /** An iterator over a directory that exists. */
    static method New(archive: Archive, dirId: DirRef) returns (r: Result<ArchiveIter, ArchiveError>)
      requires archive.Valid()
      ensures r.Ok? <==> dirId in Refs(archive.dirs)
      ensures r.Err? ==> r.error == DirectoryNotFound
      ensures r.Ok? ==> && fresh(r.value.Repr) && r.value.Valid()
                        && r.value.archive == archive && r.value.dirId == dirId && r.value.tree == TreeOf(archive)
                        && r.value.Remaining() == Listing(TreeOf(archive), dirId)
    {
      hide Inv, TreeOk, Ordered, ListDirs;
      ContentIs(archive.State(), archive.sha3);
      var content := archive.GetDirContent(dirId);
      if content.Err? {
        return Err(content.error);
      }
      ghost var tree := TreeOf(archive);
      SiblingsOrder(tree.dirs, tree.files, tree.nextId, dirId);
      var list := ListOf(content.value.0);
      var dirs := Sort(list, ByName(DirNames(archive.dirs)), content.value.0);
      assert dirs == ChildDirs(tree, dirId);
      var reversed := Reverse(dirs);
      var iter := new ArchiveIter.Start(archive, dirId, reversed, dirs);
      r := Ok(iter);
    }

    /** The next item, if there is one. */
    method Next() returns (item: Option<Item>)
      requires Valid() && archive.Valid() && TreeOf(archive) == tree
      modifies Repr
      ensures Valid() && fresh(Repr - old(Repr))
      ensures old(Remaining()) == [] ==> item.None? && Remaining() == []
      ensures old(Remaining()) != [] ==> item == Some(old(Remaining())[0]) && Remaining() == old(Remaining())[1..]
      decreases Repr, if state.Dirs? then 2 else 0
    {
      hide Inv, TreeOk, Ordered, ListDirs, FileItems, ChildFiles, Refs, TreeOf, Reversed, DirsAbove, Group,
        ValidName, Utf8, Listing;
      PopReversed(todo);
      match state {
        case Dirs(curr, next) =>
          item := NextBelow();
          if item.None? {
            if next != [] {
              item := EnterDir();
            } else {
              EnterFiles();
              item := Next();
            }
          }
        case Files(files) =>
          item := PopFile();
      }
    }

    /** The next item below the directory that is open, if there is one. */
    method NextBelow() returns (item: Option<Item>)
      requires Valid() && archive.Valid() && TreeOf(archive) == tree && state.Dirs?
      modifies Repr
      ensures Valid() && fresh(Repr - old(Repr)) && state == old(state) && todo == old(todo)
      ensures item.None? ==> NothingOpen() && Remaining() == old(Remaining())
      ensures item.Some? ==> old(Remaining()) != []
      ensures item.Some? ==> item == Some(old(Remaining())[0]) && Remaining() == old(Remaining())[1..]
      decreases Repr, 1
    {
      hide Inv, TreeOk, ListDirs, FileItems, ChildFiles, Refs, TreeOf, Reversed, DirsAbove;
      item := None;
      if state.curr.Some? {
        item := state.curr.value.Next();
        Repr := Repr + state.curr.value.Repr;
      }
    }

    /** Is done with the directory that was open, if any. */
    ghost predicate NothingOpen()
      requires Valid()
      reads this, Repr
    {
      state.Dirs? && (state.curr.Some? ==> state.curr.value.Remaining() == [])
    }

    /** Opens the next child directory, and yields it. */
    method EnterDir() returns (item: Option<Item>)
      requires Valid() && archive.Valid() && TreeOf(archive) == tree
      requires NothingOpen() && state.next != []
      modifies this
      ensures Valid() && fresh(Repr - old(Repr))
      ensures old(Remaining()) != [] && item == Some(old(Remaining())[0]) && Remaining() == old(Remaining())[1..]
    {
      hide Inv, TreeOk, Ordered, Listing, FileItems, ChildFiles, ListDirs, Reversed, DirsAbove, Refs;
      ghost var files := FileItems(tree.files, ChildFiles(tree, dirId));
      assert Remaining() == ListDirs(tree, RefNumber(dirId), todo) + files;
      PopReversed(todo);
      FirstDir(tree, RefNumber(dirId), todo, files);
      var next := state.next;
      var id := next[|next| - 1];
      var child := New(archive, NonRoot(id));
      state := Dirs(Some(child.value), next[..|next| - 1]);
      todo := todo[1..];
      Repr := Repr + child.value.Repr;
      var dir := archive.GetDir(id);
      item := Some(DirItem(dir.value));
    }

    /** Goes on to the files once all child directories are done. */
    method EnterFiles()
      requires Valid() && archive.Valid() && TreeOf(archive) == tree
      requires NothingOpen() && state.next == []
      modifies this
      ensures Valid() && Repr == {this} && state.Files? && Remaining() == old(Remaining())
    {
      hide Inv, TreeOk, Ordered, FileItems;
      SiblingsOrder(tree.dirs, tree.files, tree.nextId, dirId);
      var content := archive.GetDirContent(dirId);
      var list := ListOf(content.value.1);
      var files := Sort(list, ByName(FileNames(archive.files)), content.value.1);
      assert files == ChildFiles(tree, dirId);
      var reversed := Reverse(files);
      state := Files(reversed);
      todo := files;
      Repr := {this};
    }

    /** Yields the next file. */
    method PopFile() returns (item: Option<Item>)
      requires Valid() && TreeOf(archive) == tree && state.Files?
      modifies this
      ensures Valid() && Repr == old(Repr)
      ensures old(Remaining()) == [] ==> item.None? && Remaining() == []
      ensures old(Remaining()) != [] ==> item == Some(old(Remaining())[0]) && Remaining() == old(Remaining())[1..]
    {
      hide TreeOk;
      var files := state.files;
      if files == [] {
        return None;
      }
      var id := files[|files| - 1];
      state := Files(files[..|files| - 1]);
      todo := todo[1..];
      var file := archive.GetFile(id);
      item := Some(FileItem(file.value));
    }

    /** All the items below a directory. */
    static method Collect(archive: Archive, dirId: DirRef) returns (r: Result<seq<Item>, ArchiveError>)
      requires archive.Valid()
      ensures r == if dirId in Refs(archive.dirs) then Ok(Listing(TreeOf(archive), dirId)) else Err(DirectoryNotFound)
      ensures r.Ok? ==> InTreeOrder(TreeOf(archive), r.value)
    {
      hide Inv, TreeOk, Listing, Refs, ListDirs, FileItems, ChildFiles, Reversed, DirsAbove, ValidName, Utf8,
        InTreeOrder;
      ContentIs(archive.State(), archive.sha3);
      ListingInOrder(TreeOf(archive), dirId);
      var iter := New(archive, dirId);
      if iter.Err? {
        return Err(iter.error);
      }
      ghost var all := Listing(TreeOf(archive), dirId);
      var items: seq<Item> := [];
      while true
        invariant fresh(iter.value.Repr) && iter.value.Valid() && archive.Valid() && unchanged(archive)
        invariant all == items + iter.value.Remaining()
        decreases |iter.value.Remaining()|
      {
        MoveFirst(items, iter.value.Remaining());
        var item := iter.value.Next();
        if item.None? {
          return Ok(items);
        }
        items := items + [item.value];
      }
    }
  }

  lemma FirstDir(t: Tree, low: nat, ids: seq<Id>, files: seq<Item>)
    requires t.Ok() && DirsAbove(t, low, ids) && ids != []
    ensures ids[0] in t.dirs && NonRoot(ids[0]) in Refs(t.dirs) && DirsAbove(t, low, ids[1..])
    ensures ListDirs(t, low, ids) + files ==
            [DirItem(t.dirs[ids[0]])] + (Listing(t, NonRoot(ids[0])) + ListDirs(t, low, ids[1..]) + files)
  {
    hide TreeOk, Listing;
    assert ids[0] in ids && forall id :: id in ids[1..] ==> id in ids;
  }

  method Reverse<T>(s: seq<T>) returns (r: seq<T>)
    ensures r == Reversed(s)
  {
    r := [];
    assert s[..0] == [];
    for i := 0 to |s|
      invariant r == Reversed(s[..i])
    {
      assert s[..i + 1] == s[..i] + [s[i]];
      ReversedSnoc(s[..i], s[i]);
      r := [s[i]] + r;
    }
    assert s[..|s|] == s;
  }
}
