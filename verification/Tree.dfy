/** How the directory tree and the listings of its directories follow the creation, renaming and removal of an item. */
module Trees {
  import opened Wrappers
  import opened Names
  import opened Entries
  import opened FileTable

  ghost predicate IsNamed(item: Option<Item>, ref: DirRef, name: Name) {
    item.Some? && item.value.Parent() == ref && item.value.Name() == name
  }

  lemma NamesAfter(dirs: Dirs, files: Files, dirs': Dirs, files': Files, k: ItemId, v: Option<Item>, nextId: nat,
                   ref: DirRef, name: Name)
    requires TreeOk(dirs, files, nextId) && Changed(dirs, files, dirs', files', k, v)
    ensures name in NamesIn(dirs', files', ref) <==>
            IsNamed(v, ref, name) || (name in NamesIn(dirs, files, ref) && !IsNamed(Lookup(dirs, files, k), ref, name))
  {
    NameInGroup(dirs, files, ref, name);
    NameInGroup(dirs', files', ref, name);
    hide NamesIn, Refs;
    if name in NamesIn(dirs, files, ref) {
      var j :| IsNamed(Lookup(dirs, files, j), ref, name);
      assert IsNamed(Lookup(dirs, files, j), ref, name);
      if IsNamed(Lookup(dirs, files, k), ref, name) {
        assert SameName(dirs, files, j, k);
      } else {
        assert IsNamed(Lookup(dirs', files', j), ref, name);
      }
    }
    if IsNamed(v, ref, name) {
      assert IsNamed(Lookup(dirs', files', k), ref, name);
    }
    if name in NamesIn(dirs', files', ref) {
      var j :| IsNamed(Lookup(dirs', files', j), ref, name);
      if j != k {
        assert IsNamed(Lookup(dirs, files, j), ref, name);
        assert IsNamed(Lookup(dirs, files, k), ref, name) ==> SameName(dirs, files, j, k);
      }
    }
  }

  lemma ChangedMembers(dirs: Dirs, files: Files, dirs': Dirs, files': Files, k: ItemId, v: Option<Item>)
    requires Changed(dirs, files, dirs', files', k, v)
    ensures forall id: Id {:trigger id in dirs'} {:trigger id in dirs} :: DirId(id) != k ==>
              (id in dirs' <==> id in dirs) && (id in dirs ==> dirs'[id] == dirs[id])
    ensures forall id: Id {:trigger id in files'} {:trigger id in files} :: FileId(id) != k ==>
              (id in files' <==> id in files) && (id in files ==> files'[id] == files[id])
    ensures k.DirId? ==> (k.n in dirs' <==> v.Some?) && (v.Some? ==> v == Some(DirItem(dirs'[k.n])))
    ensures k.FileId? ==> (k.n in files' <==> v.Some?) && (v.Some? ==> v == Some(FileItem(files'[k.n])))
  {
    forall id: Id
      ensures (id in dirs' <==> Lookup(dirs', files', DirId(id)).Some?)
      ensures (id in files' <==> Lookup(dirs', files', FileId(id)).Some?)
    {
    }
    assert Lookup(dirs', files', k) == v;
  }

  /** The listing of a directory after the change: the old item leaves it, the new one joins it. */
  function Relisted(content: DirContent, ref: DirRef, u: Option<Item>, v: Option<Item>): DirContent {
    var left := if u.Some? && u.value.Parent() == ref then RemoveChild(content, u.value) else content;
    if v.Some? && v.value.Parent() == ref then AddChild(left, v.value) else left
  }

  ghost predicate Joins(item: Option<Item>, ref: DirRef) {
    item.Some? && item.value.Parent() == ref
  }

  lemma RelistedMembers(content: DirContent, ref: DirRef, u: Option<Item>, v: Option<Item>, k: ItemId)
    requires (u.Some? ==> u.value.Id() == k) && (v.Some? ==> v.value.Id() == k)
    ensures forall id :: id in Relisted(content, ref, u, v).dirs <==>
              if DirId(id) == k then Joins(v, ref) || (id in content.dirs && !Joins(u, ref)) else id in content.dirs
    ensures forall id :: id in Relisted(content, ref, u, v).files <==>
              if FileId(id) == k then Joins(v, ref) || (id in content.files && !Joins(u, ref)) else id in content.files
    ensures forall name :: name in Relisted(content, ref, u, v).names <==>
              IsNamed(v, ref, name) || (name in content.names && !IsNamed(u, ref, name))
  {
  }

  lemma DirsAfter(dirs: Dirs, files: Files, dirs': Dirs, files': Files, k: ItemId, v: Option<Item>, ref: DirRef)
    requires Changed(dirs, files, dirs', files', k, v)
    ensures forall id :: id in DirsIn(dirs', ref) <==>
              if DirId(id) == k then Joins(v, ref) else id in DirsIn(dirs, ref)
    ensures k.DirId? ==> (k.n in DirsIn(dirs, ref) <==> Joins(Lookup(dirs, files, k), ref))
  {
    ChangedMembers(dirs, files, dirs', files', k, v);
    hide Changed;
  }

  lemma FilesAfter(dirs: Dirs, files: Files, dirs': Dirs, files': Files, k: ItemId, v: Option<Item>, ref: DirRef)
    requires Changed(dirs, files, dirs', files', k, v)
    ensures forall id :: id in FilesIn(files', ref) <==>
              if FileId(id) == k then Joins(v, ref) else id in FilesIn(files, ref)
    ensures k.FileId? ==> (k.n in FilesIn(files, ref) <==> Joins(Lookup(dirs, files, k), ref))
  {
    ChangedMembers(dirs, files, dirs', files', k, v);
    hide Changed;
  }

  lemma ChangedIdentifier(dirs: Dirs, files: Files, dirs': Dirs, files': Files, k: ItemId, v: Option<Item>)
    requires Changed(dirs, files, dirs', files', k, v)
    ensures v.Some? ==> v.value.Id() == k
  {
  }

  lemma ChildrenAfter(dirs: Dirs, files: Files, dirs': Dirs, files': Files, k: ItemId, v: Option<Item>, nextId: nat,
                      ref: DirRef)
    requires TreeOk(dirs, files, nextId) && Changed(dirs, files, dirs', files', k, v)
    ensures ChildrenOf(dirs', files', ref) == Relisted(ChildrenOf(dirs, files, ref), ref, Lookup(dirs, files, k), v)
  {
    hide NamesIn, Changed, DirsIn, FilesIn, Relisted, Joins;
    var u := Lookup(dirs, files, k);
    assert u.Some? ==> WellPlaced(dirs, u.value, k, nextId);
    assert v.Some? ==> v.value.Id() == k by {
      ChangedIdentifier(dirs, files, dirs', files', k, v);
    }
    DirsAfter(dirs, files, dirs', files', k, v, ref);
    FilesAfter(dirs, files, dirs', files', k, v, ref);
    RelistedMembers(ChildrenOf(dirs, files, ref), ref, u, v, k);
    hide Lookup, TreeOk;
    var relisted := Relisted(ChildrenOf(dirs, files, ref), ref, u, v);
    assert DirsIn(dirs', ref) == relisted.dirs;
    assert FilesIn(files', ref) == relisted.files;
    forall name: Name
      ensures name in NamesIn(dirs', files', ref) <==> name in relisted.names
    {
      NamesAfter(dirs, files, dirs', files', k, v, nextId, ref, name);
    }
    assert NamesIn(dirs', files', ref) == relisted.names;
  }

  /** No other item of the directory has the name. */
  ghost predicate NameFree(dirs: Dirs, files: Files, k: ItemId, item: Item) {
    item.Name() in NamesIn(dirs, files, item.Parent()) ==>
      IsNamed(Lookup(dirs, files, k), item.Parent(), item.Name())
  }

  lemma TreeOkAfter(dirs: Dirs, files: Files, dirs': Dirs, files': Files, k: ItemId, v: Option<Item>,
                    nextId: nat, nextId': nat)
    requires TreeOk(dirs, files, nextId) && Changed(dirs, files, dirs', files', k, v) && nextId <= nextId'
    requires v.Some? ==> WellPlaced(dirs', v.value, k, nextId') && NameFree(dirs, files, k, v.value)
    requires v.Some? ==> if k.DirId? then k.n !in files else k.n !in dirs
    requires v.None? && k.DirId? ==> NamesIn(dirs, files, NonRoot(k.n)) == {}
    ensures TreeOk(dirs', files', nextId')
  {
    ChangedMembers(dirs, files, dirs', files', k, v);
    forall j | Lookup(dirs', files', j).Some?
      ensures WellPlaced(dirs', Lookup(dirs', files', j).value, j, nextId')
    {
      if j != k {
        var item := Lookup(dirs, files, j).value;
        assert WellPlaced(dirs, item, j, nextId);
        if v.None? && k.DirId? && item.Parent() == NonRoot(k.n) {
          NameInGroup(dirs, files, NonRoot(k.n), item.Name());
          assert false;
        }
      }
    }
    forall i, j | SameName(dirs', files', i, j)
      ensures i == j
    {
      if i != k && j != k {
        assert SameName(dirs, files, i, j);
      } else if i != j {
        var o := if i == k then j else i;
        var item := v.value;
        NameInGroup(dirs, files, item.Parent(), item.Name());
        assert IsNamed(Lookup(dirs, files, o), item.Parent(), item.Name());
        assert SameName(dirs, files, o, k);
      }
    }
  }

  lemma RefsAfter(dirs: Dirs, files: Files, dirs': Dirs, files': Files, k: ItemId, v: Option<Item>)
    requires Changed(dirs, files, dirs', files', k, v)
    ensures Refs(dirs') ==
            if k.FileId? then Refs(dirs)
            else if v.Some? then Refs(dirs) + {NonRoot(k.n)}
            else Refs(dirs) - {NonRoot(k.n)}
  {
    ChangedMembers(dirs, files, dirs', files', k, v);
    hide Changed;
  }

  lemma FreshIdentifier(dirs: Dirs, files: Files, nextId: nat, k: ItemId)
    requires TreeOk(dirs, files, nextId) && k.n >= nextId
    ensures k.n !in dirs && k.n !in files && NonRoot(k.n) !in Refs(dirs)
    ensures forall ref :: ref in Refs(dirs) && ref.NonRoot? ==> ref.id < nextId
  {
    forall j | Lookup(dirs, files, j).Some?
      ensures j.n < nextId
    {
      assert WellPlaced(dirs, Lookup(dirs, files, j).value, j, nextId);
    }
    assert forall id :: id in dirs ==> Lookup(dirs, files, DirId(id)).Some?;
    assert forall id :: id in files ==> Lookup(dirs, files, FileId(id)).Some?;
  }

  // -- The three kinds of change -----------------------------------------------------------------

  /** A new item under an unused identifier and an unused name. */
  lemma TreeInsert(dirs: Dirs, files: Files, dirs': Dirs, files': Files, k: ItemId, item: Item, nextId: nat)
    requires TreeOk(dirs, files, nextId) && Changed(dirs, files, dirs', files', k, Some(item))
    requires k.n == nextId && item.Parent() in Refs(dirs)
    requires item.Name() !in NamesIn(dirs, files, item.Parent())
    ensures TreeOk(dirs', files', nextId + 1)
    ensures Lookup(dirs, files, k).None?
    ensures Group(dirs', files') ==
            var group := Group(dirs, files);
            var joined := group[item.Parent() := AddChild(group[item.Parent()], item)];
            if k.DirId? then joined[NonRoot(k.n) := EMPTY_CONTENT] else joined
  {
    FreshIdentifier(dirs, files, nextId, k);
    assert Lookup(dirs, files, k).None?;
    RefsAfter(dirs, files, dirs', files', k, Some(item));
    TreeOkAfter(dirs, files, dirs', files', k, Some(item), nextId, nextId + 1);
    hide *;
    forall ref
      ensures ChildrenOf(dirs', files', ref) == ListedAfterInsert(dirs, files, item, ref)
    {
      ListingAfterInsert(dirs, files, dirs', files', k, item, nextId, ref);
    }
    GroupAfterInsert(dirs, files, dirs', files', k, item);
  }

  ghost function ListedAfterInsert(dirs: Dirs, files: Files, item: Item, ref: DirRef): DirContent {
    var content := if ref in Refs(dirs) then ChildrenOf(dirs, files, ref) else EMPTY_CONTENT;
    if ref == item.Parent() then AddChild(content, item) else content
  }

  lemma GroupAfterInsert(dirs: Dirs, files: Files, dirs': Dirs, files': Files, k: ItemId, item: Item)
    requires item.Parent() in Refs(dirs) && (k.DirId? ==> NonRoot(k.n) !in Refs(dirs))
    requires Refs(dirs') == if k.FileId? then Refs(dirs) else Refs(dirs) + {NonRoot(k.n)}
    requires forall ref :: ChildrenOf(dirs', files', ref) == ListedAfterInsert(dirs, files, item, ref)
    ensures item.Parent() in Group(dirs, files)
    ensures Group(dirs', files') ==
            var group := Group(dirs, files);
            var joined := group[item.Parent() := AddChild(group[item.Parent()], item)];
            if k.DirId? then joined[NonRoot(k.n) := EMPTY_CONTENT] else joined
  {
    hide Refs, ChildrenOf, AddChild;
    GroupEntries(dirs, files);
    GroupEntries(dirs', files');
    hide Group;
  }

  lemma ListingAfterInsert(dirs: Dirs, files: Files, dirs': Dirs, files': Files, k: ItemId, item: Item, nextId: nat,
                           ref: DirRef)
    requires TreeOk(dirs, files, nextId) && Changed(dirs, files, dirs', files', k, Some(item))
    requires Lookup(dirs, files, k).None?
    ensures ChildrenOf(dirs', files', ref) == ListedAfterInsert(dirs, files, item, ref)
  {
    ChildrenAfter(dirs, files, dirs', files', k, Some(item), nextId, ref);
    if ref !in Refs(dirs) {
      NoChildren(dirs, files, nextId, ref);
    }
  }

  /** Nothing is listed under a directory that does not exist. */
  lemma NoChildren(dirs: Dirs, files: Files, nextId: nat, ref: DirRef)
    requires TreeOk(dirs, files, nextId) && ref !in Refs(dirs)
    ensures ChildrenOf(dirs, files, ref) == EMPTY_CONTENT
  {
    hide Refs, ChildrenOf;
    forall id | id in dirs
      ensures dirs[id].parentDir != ref
    {
      assert Lookup(dirs, files, DirId(id)).Some?;
      assert WellPlaced(dirs, DirItem(dirs[id]), DirId(id), nextId);
    }
    forall id | id in files
      ensures files[id].parentDir != ref
    {
      assert Lookup(dirs, files, FileId(id)).Some?;
      assert WellPlaced(dirs, FileItem(files[id]), FileId(id), nextId);
    }
    NothingListed(dirs, files, ref);
  }

  /** An item that stays in its directory, under its own name or one that is not used there. */
  lemma TreeUpdate(dirs: Dirs, files: Files, dirs': Dirs, files': Files, k: ItemId, u: Item, v: Item, nextId: nat)
    requires TreeOk(dirs, files, nextId) && Changed(dirs, files, dirs', files', k, Some(v))
    requires Lookup(dirs, files, k) == Some(u) && v.Parent() == u.Parent()
    requires v.Name() == u.Name() || v.Name() !in NamesIn(dirs, files, u.Parent())
    ensures TreeOk(dirs', files', nextId)
    ensures u.Parent() in Group(dirs, files)
    ensures Group(dirs', files') ==
            var group := Group(dirs, files);
            var names := group[u.Parent()].names - {u.Name()} + {v.Name()};
            group[u.Parent() := group[u.Parent()].(names := names)]
  {
    hide *;
    TreeOkAfterUpdate(dirs, files, dirs', files', k, u, v, nextId);
    GroupEntries(dirs, files);
    var group := Group(dirs, files);
    var names := group[u.Parent()].names - {u.Name()} + {v.Name()};
    var group' := group[u.Parent() := group[u.Parent()].(names := names)];
    forall ref | ref in Refs(dirs')
      ensures ref in group' && group'[ref] == ChildrenOf(dirs', files', ref)
    {
      ListingAfterUpdate(dirs, files, dirs', files', k, u, v, nextId, ref);
    }
    GroupIs(dirs', files', group');
  }

  lemma TreeOkAfterUpdate(dirs: Dirs, files: Files, dirs': Dirs, files': Files, k: ItemId, u: Item, v: Item, nextId: nat)
    requires TreeOk(dirs, files, nextId) && Changed(dirs, files, dirs', files', k, Some(v))
    requires Lookup(dirs, files, k) == Some(u) && v.Parent() == u.Parent()
    requires v.Name() == u.Name() || v.Name() !in NamesIn(dirs, files, u.Parent())
    ensures TreeOk(dirs', files', nextId)
    ensures u.Parent() in Refs(dirs) && Refs(dirs') == Refs(dirs)
  {
    assert WellPlaced(dirs, u, k, nextId);
    assert k.n !in dirs || k.n !in files;
    RefsAfter(dirs, files, dirs', files', k, Some(v));
    TreeOkAfter(dirs, files, dirs', files', k, Some(v), nextId, nextId);
  }

  lemma ListingAfterUpdate(dirs: Dirs, files: Files, dirs': Dirs, files': Files, k: ItemId, u: Item, v: Item,
                           nextId: nat, ref: DirRef)
    requires TreeOk(dirs, files, nextId) && Changed(dirs, files, dirs', files', k, Some(v))
    requires Lookup(dirs, files, k) == Some(u) && v.Parent() == u.Parent()
    ensures ChildrenOf(dirs', files', ref) ==
            var content := ChildrenOf(dirs, files, ref);
            if ref == u.Parent() then content.(names := content.names - {u.Name()} + {v.Name()}) else content
  {
    assert WellPlaced(dirs, u, k, nextId);
    ChildrenAfter(dirs, files, dirs', files', k, Some(v), nextId, ref);
    if ref == u.Parent() {
      ListedChild(dirs, files, k, u);
      RelistedInPlace(ChildrenOf(dirs, files, ref), u, v);
    }
  }

  lemma RelistedInPlace(content: DirContent, u: Item, v: Item)
    requires u.Id() == v.Id() && u.Parent() == v.Parent()
    requires if u.DirItem? then u.dir.id in content.dirs else u.file.id in content.files
    ensures Relisted(content, u.Parent(), Some(u), Some(v)) ==
            content.(names := content.names - {u.Name()} + {v.Name()})
  {
    assert u.DirItem? ==> content.dirs - {u.dir.id} + {u.dir.id} == content.dirs;
    assert u.FileItem? ==> content.files - {u.file.id} + {u.file.id} == content.files;
  }

  lemma ListedChild(dirs: Dirs, files: Files, k: ItemId, u: Item)
    requires Lookup(dirs, files, k) == Some(u) && u.Id() == k
    ensures if k.DirId? then k.n in ChildrenOf(dirs, files, u.Parent()).dirs
            else k.n in ChildrenOf(dirs, files, u.Parent()).files
    ensures u.Name() in ChildrenOf(dirs, files, u.Parent()).names
  {
    NameInGroup(dirs, files, u.Parent(), u.Name());
  }

  /** A file, or a directory that lists nothing, goes away. */
  lemma TreeRemove(dirs: Dirs, files: Files, dirs': Dirs, files': Files, k: ItemId, u: Item, nextId: nat)
    requires TreeOk(dirs, files, nextId) && Changed(dirs, files, dirs', files', k, None)
    requires Lookup(dirs, files, k) == Some(u)
    requires k.DirId? ==> ChildrenOf(dirs, files, NonRoot(k.n)) == EMPTY_CONTENT
    ensures TreeOk(dirs', files', nextId)
    ensures u.Parent() in Group(dirs, files) && (k.DirId? ==> u.Parent() != NonRoot(k.n))
    ensures Group(dirs', files') ==
            var group := Group(dirs, files);
            var left := group[u.Parent() := RemoveChild(group[u.Parent()], u)];
            if k.DirId? then left - {NonRoot(k.n)} else left
  {
    hide *;
    TreeOkAfterRemove(dirs, files, dirs', files', k, u, nextId);
    RefsAfter(dirs, files, dirs', files', k, None);
    GroupEntries(dirs, files);
    var group := Group(dirs, files);
    var left := group[u.Parent() := RemoveChild(group[u.Parent()], u)];
    var group' := if k.DirId? then left - {NonRoot(k.n)} else left;
    forall ref | ref in Refs(dirs')
      ensures ref in group' && group'[ref] == ChildrenOf(dirs', files', ref)
    {
      ListingAfterRemove(dirs, files, dirs', files', k, u, nextId, ref);
    }
    GroupIs(dirs', files', group');
  }

  lemma ListingAfterRemove(dirs: Dirs, files: Files, dirs': Dirs, files': Files, k: ItemId, u: Item,
                           nextId: nat, ref: DirRef)
    requires TreeOk(dirs, files, nextId) && Changed(dirs, files, dirs', files', k, None)
    requires Lookup(dirs, files, k) == Some(u)
    ensures ChildrenOf(dirs', files', ref) ==
            var content := ChildrenOf(dirs, files, ref);
            if ref == u.Parent() then RemoveChild(content, u) else content
  {
    hide TreeOk, Changed, ChildrenOf;
    ChildrenAfter(dirs, files, dirs', files', k, None, nextId, ref);
  }

  lemma TreeOkAfterRemove(dirs: Dirs, files: Files, dirs': Dirs, files': Files, k: ItemId, u: Item, nextId: nat)
    requires TreeOk(dirs, files, nextId) && Changed(dirs, files, dirs', files', k, None)
    requires Lookup(dirs, files, k) == Some(u)
    requires k.DirId? ==> ChildrenOf(dirs, files, NonRoot(k.n)) == EMPTY_CONTENT
    ensures TreeOk(dirs', files', nextId)
    ensures u.Parent() in Refs(dirs) && (k.DirId? ==> u.Parent() != NonRoot(k.n))
  {
    hide Changed, NamesIn;
    assert WellPlaced(dirs, u, k, nextId);
    TreeOkAfter(dirs, files, dirs', files', k, None, nextId, nextId);
  }
}
