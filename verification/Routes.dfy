/** Where items are: the names on the way from the root to an item, and the item that a list of names leads to. */
module Routes {
  import opened Wrappers
  import opened Names
  import opened Entries
  import opened FileTable
  import opened Trees

  /** What a path leads to. */
  datatype ItemIdOrRoot = AtRoot | AtDir(dir: Id) | AtFile(file: Id)

  function Place(k: ItemId): ItemIdOrRoot {
    match k
    case DirId(id) => AtDir(id)
    case FileId(id) => AtFile(id)
  }

  function PlaceOf(ref: DirRef): ItemIdOrRoot {
    match ref
    case Root => AtRoot
    case NonRoot(id) => AtDir(id)
  }

  /** The names of the directories from below the root down to this one, found by climbing the parents. */
  function RouteTo(dirs: Dirs, ref: DirRef): seq<Name>
    decreases RefNumber(ref)
  {
    if ref.NonRoot? && ref.id in dirs && RefNumber(dirs[ref.id].parentDir) < ref.id
    then RouteTo(dirs, dirs[ref.id].parentDir) + [dirs[ref.id].name]
    else []
  }

  function RouteOf(dirs: Dirs, item: Item): seq<Name> {
    RouteTo(dirs, item.Parent()) + [item.Name()]
  }

  ghost predicate IsChild(dirs: Dirs, files: Files, ref: DirRef, name: Name, k: ItemId) {
    IsNamed(Lookup(dirs, files, k), ref, name)
  }

  /** The child of that name, if there is one. */
  ghost function Child(dirs: Dirs, files: Files, ref: DirRef, name: Name): Option<ItemId> {
    if exists k :: IsChild(dirs, files, ref, name, k) then
      var k :| IsChild(dirs, files, ref, name, k);
      Some(k)
    else None
  }

  /** The directory at a place, if it is one. */
  function RefAt(at: Option<ItemIdOrRoot>): (ref: Option<DirRef>)
    ensures forall r :: ref == Some(r) <==> at == Some(PlaceOf(r))
  {
    match at
    case None => None
    case Some(AtRoot) => Some(Root)
    case Some(AtDir(id)) => Some(NonRoot(id))
    case Some(AtFile(_)) => None
  }

  ghost function Below(dirs: Dirs, files: Files, at: Option<ItemIdOrRoot>, name: Name): Option<ItemIdOrRoot> {
    if RefAt(at).None? then None
    else
      var k := Child(dirs, files, RefAt(at).value, name);
      if k.Some? then Some(Place(k.value)) else None
  }

  /** Descends from the root, one name after the other. */
  ghost function Resolve(dirs: Dirs, files: Files, path: seq<Name>): Option<ItemIdOrRoot> {
    if path == [] then Some(AtRoot)
    else Below(dirs, files, Resolve(dirs, files, path[..|path| - 1]), path[|path| - 1])
  }

  /** Names are unique in a directory, so its children are told apart by their names. */
  lemma ChildIs(dirs: Dirs, files: Files, nextId: nat, ref: DirRef, name: Name, k: ItemId)
    requires TreeOk(dirs, files, nextId)
    ensures Child(dirs, files, ref, name) == Some(k) <==> IsChild(dirs, files, ref, name, k)
  {
    var child := Child(dirs, files, ref, name);
    if child.Some? {
      assert IsChild(dirs, files, ref, name, child.value);
    }
    if IsChild(dirs, files, ref, name, k) {
      assert IsChild(dirs, files, ref, name, child.value);
      assert SameName(dirs, files, child.value, k);
    }
  }

  lemma BelowIs(dirs: Dirs, files: Files, nextId: nat, at: Option<ItemIdOrRoot>, name: Name, k: ItemId)
    requires TreeOk(dirs, files, nextId)
    ensures Below(dirs, files, at, name) == Some(Place(k)) <==>
            RefAt(at).Some? && IsChild(dirs, files, RefAt(at).value, name, k)
  {
    hide Child, IsChild, TreeOk;
    if RefAt(at).Some? {
      ChildIs(dirs, files, nextId, RefAt(at).value, name, k);
    }
  }

  /** A directory has no child of a name exactly if it does not list that name. */
  lemma NoChild(dirs: Dirs, files: Files, ref: DirRef, name: Name)
    ensures Child(dirs, files, ref, name).None? <==> name !in NamesIn(dirs, files, ref)
  {
    NameInGroup(dirs, files, ref, name);
    hide NamesIn;
    if name in NamesIn(dirs, files, ref) {
      var k :| && Lookup(dirs, files, k).Some? && Lookup(dirs, files, k).value.Parent() == ref
               && Lookup(dirs, files, k).value.Name() == name;
      assert IsChild(dirs, files, ref, name, k);
    }
    if Child(dirs, files, ref, name).Some? {
      var k :| IsChild(dirs, files, ref, name, k);
      assert IsChild(dirs, files, ref, name, k);
    }
  }

  lemma Climb(dirs: Dirs, files: Files, nextId: nat, k: ItemId)
    requires TreeOk(dirs, files, nextId) && Lookup(dirs, files, k).Some?
    ensures var item := Lookup(dirs, files, k).value;
            && item.Id() == k && item.Parent() in Refs(dirs) && RefNumber(item.Parent()) < k.n < nextId
            && (k.DirId? ==> RouteTo(dirs, NonRoot(k.n)) == RouteOf(dirs, item))
  {
    assert WellPlaced(dirs, Lookup(dirs, files, k).value, k, nextId);
  }

  lemma LiveRef(dirs: Dirs, files: Files, ref: DirRef)
    ensures ref in Refs(dirs) <==> ref.Root? || Lookup(dirs, files, DirId(ref.id)).Some?
  {
  }

  /** A list of names leads to an item exactly if it is the route to that item. */
  lemma {:induction false} ResolvesToItem(dirs: Dirs, files: Files, nextId: nat, path: seq<Name>, k: ItemId)
    requires TreeOk(dirs, files, nextId)
    ensures Resolve(dirs, files, path) == Some(Place(k)) <==>
            Lookup(dirs, files, k).Some? && RouteOf(dirs, Lookup(dirs, files, k).value) == path
    decreases |path|, 0
  {
    hide TreeOk, Child, Lookup, RouteTo, Refs, Below, PlaceOf;
    if path != [] {
      var front, name := path[..|path| - 1], path[|path| - 1];
      assert path == front + [name];
      var at := Resolve(dirs, files, front);
      BelowIs(dirs, files, nextId, at, name, k);
      if RefAt(at).Some? {
        ResolvesToDir(dirs, files, nextId, front, RefAt(at).value);
      }
      if Lookup(dirs, files, k).Some? {
        Climb(dirs, files, nextId, k);
        ResolvesToDir(dirs, files, nextId, front, Lookup(dirs, files, k).value.Parent());
      }
    }
  }

  /** A list of names leads to a directory exactly if it is the route to that directory. */
  lemma {:induction false} ResolvesToDir(dirs: Dirs, files: Files, nextId: nat, path: seq<Name>, ref: DirRef)
    requires TreeOk(dirs, files, nextId)
    ensures Resolve(dirs, files, path) == Some(PlaceOf(ref)) <==> ref in Refs(dirs) && RouteTo(dirs, ref) == path
    decreases |path|, 1
  {
    hide TreeOk, Child, Lookup, Refs;
    LiveRef(dirs, files, ref);
    if ref.Root? {
      if path != [] {
        NeverRoot(dirs, files, path);
      }
    } else {
      ResolvesToItem(dirs, files, nextId, path, DirId(ref.id));
      if Lookup(dirs, files, DirId(ref.id)).Some? {
        Climb(dirs, files, nextId, DirId(ref.id));
      }
    }
  }

  lemma NeverRoot(dirs: Dirs, files: Files, path: seq<Name>)
    requires path != []
    ensures Resolve(dirs, files, path) != Some(AtRoot)
  {
  }

  /** Nothing lies behind a dead end. */
  lemma {:induction false} DeadEnd(dirs: Dirs, files: Files, path: seq<Name>, i: nat)
    requires i < |path| && RefAt(Resolve(dirs, files, path[..i])).None?
    ensures Resolve(dirs, files, path).None?
    decreases |path|
  {
    var front := path[..|path| - 1];
    if i < |front| {
      assert front[..i] == path[..i];
      DeadEnd(dirs, files, front, i);
    } else {
      assert path[..i] == front;
    }
  }
}
