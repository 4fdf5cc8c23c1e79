/** The tree that the command line tool prints: built eagerly, it shows the items in the order of the iterator. */
module ContentTrees {
  import opened Wrappers
  import opened Bytes
  import opened Sequences
  import opened Sorting
  import opened Names
  import opened Entries
  import opened FileTable
  import opened Trees
  import opened Routes
  import opened States
  import opened Operations
  import opened Archives
  import opened Listings
  import opened Iterators

  datatype TreeNode = TreeNode(name: seq<Byte>, isDir: bool, children: seq<TreeNode>)

  /** Directories first, then files, by name in each group. */
  function NodeBefore(a: TreeNode, b: TreeNode): bool {
    if a.isDir != b.isDir then a.isDir else a.name != b.name && NameLeq(a.name, b.name)
  }

  /** What stands for a directory that is not there. */
  const ERROR_NAME: seq<Byte> := [0x3C, 0x65, 0x72, 0x72, 0x6F, 0x72, 0x3E]

  // -- What the tree is --------------------------------------------------------------------------

  ghost function DirNode(t: Tree, id: Id): TreeNode
    requires t.Ok() && id in t.dirs && id < t.nextId
    decreases t.nextId - id, 1, 0
  {
    TreeNode(t.dirs[id].name, true, Nodes(t, NonRoot(id)))
  }

  ghost function Nodes(t: Tree, ref: DirRef): seq<TreeNode>
    requires t.Ok()
    decreases if RefNumber(ref) < t.nextId then t.nextId - RefNumber(ref) else 0, 0, 1
  {
    DirNodes(t, RefNumber(ref), ChildDirs(t, ref)) + FileNodes(t, ChildFiles(t, ref))
  }

  ghost function DirNodes(t: Tree, low: nat, ids: seq<Id>): seq<TreeNode>
    requires t.Ok() && DirsAbove(t, low, ids)
    decreases if low < t.nextId then t.nextId - low else 0, 0, 0
  {
    seq(|ids|, i requires 0 <= i < |ids| => assert ids[i] in ids; DirNode(t, ids[i]))
  }

  function FileNodes(t: Tree, ids: seq<Id>): seq<TreeNode>
    requires forall id :: id in ids ==> id in t.files
  {
    seq(|ids|, i requires 0 <= i < |ids| => TreeNode(t.files[ids[i]].name, false, []))
  }

  // -- The order of the lines --------------------------------------------------------------------

  datatype Label = Label(name: seq<Byte>, isDir: bool)

  /** The lines of a printed tree, from top to bottom. */
  function Lines(nodes: seq<TreeNode>): seq<Label> {
    if nodes == [] then []
    else [Label(nodes[0].name, nodes[0].isDir)] + Lines(nodes[0].children) + Lines(nodes[1..])
  }

  function Labels(items: seq<Item>): seq<Label> {
    if items == [] then [] else [Label(items[0].Name(), items[0].DirItem?)] + Labels(items[1..])
  }

  lemma {:induction false} LinesConcat(a: seq<TreeNode>, b: seq<TreeNode>)
    ensures Lines(a + b) == Lines(a) + Lines(b)
    decreases |a|
  {
    if a == [] {
      assert a + b == b;
    } else {
      assert (a + b)[1..] == a[1..] + b;
      LinesConcat(a[1..], b);
    }
  }

  lemma {:induction false} LabelsConcat(a: seq<Item>, b: seq<Item>)
    ensures Labels(a + b) == Labels(a) + Labels(b)
  {
    if a == [] {
      assert a + b == b;
    } else {
      assert (a + b)[1..] == a[1..] + b;
      LabelsConcat(a[1..], b);
    }
  }

  /** From top to bottom, the tree shows the names and kinds of the listing. */
  lemma {:induction false} TreeShowsListing(t: Tree, ref: DirRef)
    requires t.Ok()
    ensures Lines(Nodes(t, ref)) == Labels(Listing(t, ref))
    decreases if RefNumber(ref) < t.nextId then t.nextId - RefNumber(ref) else 0, 1, 0
  {
    hide TreeOk;
    var dirs, files := ChildDirs(t, ref), ChildFiles(t, ref);
    DirLines(t, RefNumber(ref), dirs);
    FileLines(t, files);
    LinesConcat(DirNodes(t, RefNumber(ref), dirs), FileNodes(t, files));
    LabelsConcat(ListDirs(t, RefNumber(ref), dirs), FileItems(t.files, files));
  }

  lemma {:induction false} DirLines(t: Tree, low: nat, ids: seq<Id>)
    requires t.Ok() && DirsAbove(t, low, ids)
    ensures Lines(DirNodes(t, low, ids)) == Labels(ListDirs(t, low, ids))
    decreases if low < t.nextId then t.nextId - low else 0, 0, |ids|
  {
    hide TreeOk, Listing, Nodes;
    if ids != [] {
      assert ids[0] in ids && forall id :: id in ids[1..] ==> id in ids;
      var head := DirItem(t.dirs[ids[0]]);
      TreeShowsListing(t, NonRoot(ids[0]));
      DirLines(t, low, ids[1..]);
      assert DirNodes(t, low, ids)[1..] == DirNodes(t, low, ids[1..]);
      LabelsConcat([head] + Listing(t, NonRoot(ids[0])), ListDirs(t, low, ids[1..]));
      LabelsConcat([head], Listing(t, NonRoot(ids[0])));
    }
  }

  lemma {:induction false} FileLines(t: Tree, ids: seq<Id>)
    requires forall id :: id in ids ==> id in t.files
    ensures Lines(FileNodes(t, ids)) == Labels(FileItems(t.files, ids))
  {
    if ids != [] {
      assert ids[0] in ids && forall id :: id in ids[1..] ==> id in ids;
      var file := t.files[ids[0]];
      assert FileNodes(t, ids) == [TreeNode(file.name, false, [])] + FileNodes(t, ids[1..]);
      assert FileItems(t.files, ids) == [FileItem(file)] + FileItems(t.files, ids[1..]);
      FileLines(t, ids[1..]);
      OneFileLine(file, FileNodes(t, ids[1..]), FileItems(t.files, ids[1..]));
      hide FileNodes, FileItems, Lines, Labels;
    }
  }

  lemma OneFileLine(file: File, nodes: seq<TreeNode>, items: seq<Item>)
    requires Lines(nodes) == Labels(items)
    ensures Lines([TreeNode(file.name, false, [])] + nodes) == Labels([FileItem(file)] + items)
  {
    assert ([TreeNode(file.name, false, [])] + nodes)[1..] == nodes;
    assert ([FileItem(file)] + items)[1..] == items;
  }

  // -- Building the tree -------------------------------------------------------------------------

  method Build(archive: Archive) returns (roots: seq<TreeNode>)
    requires archive.Valid()
    ensures TreeOf(archive).Ok() && roots == Nodes(TreeOf(archive), Root)
  {
    hide Inv, TreeOk, Nodes;
    ContentIs(archive.State(), archive.sha3);
    roots := BuildNodes(archive, Root);
  }

  /** A directory with everything below it. */
  method BuildDirNode(id: Id, archive: Archive) returns (node: TreeNode)
    requires archive.Valid()
    ensures TreeOf(archive).Ok()
    ensures node == if id in archive.dirs && id < archive.nextId then DirNode(TreeOf(archive), id)
                    else TreeNode(ERROR_NAME, true, [])
    decreases archive.nextId - id, 2
  {
    hide Inv, TreeOk, Nodes;
    ContentIs(archive.State(), archive.sha3);
    var dir := archive.GetDir(id);
    if dir.None? {
      return TreeNode(ERROR_NAME, true, []);
    }
    Climb(archive.dirs, archive.files, archive.nextId, DirId(id));
    var children := BuildNodes(archive, NonRoot(id));
    node := TreeNode(dir.value.name, true, children);
  }

  /** The nodes of a directory: whatever order the hash sets give, directories by name, then files by name. */
  method BuildNodes(archive: Archive, ref: DirRef) returns (nodes: seq<TreeNode>)
    requires archive.Valid() && RefNumber(ref) < archive.nextId
    ensures TreeOf(archive).Ok() && nodes == Nodes(TreeOf(archive), ref)
    decreases archive.nextId - RefNumber(ref), 1
  {
    hide Inv, TreeOk, Nodes, Refs, DirNode, DirNodes, FileNodes;
    ContentIs(archive.State(), archive.sha3);
    ghost var t := TreeOf(archive);
    var content := archive.GetDirContent(ref);
    var dirSet: set<Id>, fileSet: set<Id> := {}, {};
    if content.Ok? {
      dirSet, fileSet := content.value.0, content.value.1;
    }
    ContentOrNothing(t, ref, dirSet, fileSet);
    var dirIds := ListOf(dirSet);
    var fileIds := ListOf(fileSet);
    nodes := CollectNodes(archive, ref, dirIds, fileIds);
    ghost var members := set node | node in nodes;
    SameNodes(t, ref, dirIds, fileIds, nodes, members);
    nodes := Sort(nodes, NodeBefore, members);
    OrderUnique(NodeBefore, members, nodes, Nodes(t, ref));
  }

  /** The nodes of a directory, not yet in order. */
  method CollectNodes(archive: Archive, ref: DirRef, dirIds: seq<Id>, fileIds: seq<Id>) returns (nodes: seq<TreeNode>)
    requires archive.Valid() && TreeOf(archive).Ok() && RefNumber(ref) < archive.nextId
    requires forall id :: id in dirIds ==> id in DirsIn(archive.dirs, ref)
    requires forall id :: id in fileIds ==> id in FilesIn(archive.files, ref)
    ensures DirsAbove(TreeOf(archive), RefNumber(ref), dirIds) && forall id :: id in fileIds ==> id in archive.files
    ensures nodes == DirNodes(TreeOf(archive), RefNumber(ref), dirIds) + FileNodes(TreeOf(archive), fileIds)
    decreases archive.nextId - RefNumber(ref), 0
  {
    hide Inv, TreeOk, Nodes, Refs, DirNode, DirNodes, FileNodes;
    ghost var t := TreeOf(archive);
    nodes := [];
    NoNodes(t, RefNumber(ref));
    for i := 0 to |dirIds|
      invariant DirsAbove(t, RefNumber(ref), dirIds[..i]) && nodes == DirNodes(t, RefNumber(ref), dirIds[..i])
    {
      ChildrenAbove(t, ref);
      assert dirIds[i] in DirsIn(t.dirs, ref);
      var node := BuildDirNode(dirIds[i], archive);
      OneMoreDirNode(t, RefNumber(ref), dirIds, i);
      nodes := nodes + [node];
    }
    assert dirIds[..|dirIds|] == dirIds && fileIds[..0] == [];
    for i := 0 to |fileIds|
      invariant forall id :: id in fileIds[..i] ==> id in t.files
      invariant nodes == DirNodes(t, RefNumber(ref), dirIds) + FileNodes(t, fileIds[..i])
    {
      assert fileIds[i] in FilesIn(t.files, ref);
      var file := archive.GetFile(fileIds[i]);
      if file.Some? {
        OneMoreFileNode(t, fileIds, i);
        nodes := nodes + [TreeNode(file.value.name, false, [])];
      }
    }
    assert fileIds[..|fileIds|] == fileIds;
  }

  lemma NoNodes(t: Tree, low: nat)
    requires t.Ok()
    ensures DirsAbove(t, low, []) && DirNodes(t, low, []) == [] && FileNodes(t, []) == []
  {
  }

  lemma OneMoreDirNode(t: Tree, low: nat, ids: seq<Id>, i: nat)
    requires t.Ok() && i < |ids| && DirsAbove(t, low, ids[..i])
    requires ids[i] in t.dirs && low < ids[i] < t.nextId
    ensures DirsAbove(t, low, ids[..i + 1])
    ensures DirNodes(t, low, ids[..i + 1]) == DirNodes(t, low, ids[..i]) + [DirNode(t, ids[i])]
  {
    hide TreeOk, DirNode;
    assert ids[..i + 1] == ids[..i] + [ids[i]];
  }

  lemma OneMoreFileNode(t: Tree, ids: seq<Id>, i: nat)
    requires i < |ids| && (forall id :: id in ids[..i] ==> id in t.files) && ids[i] in t.files
    ensures forall id :: id in ids[..i + 1] ==> id in t.files
    ensures FileNodes(t, ids[..i + 1]) == FileNodes(t, ids[..i]) + [TreeNode(t.files[ids[i]].name, false, [])]
  {
    assert ids[..i + 1] == ids[..i] + [ids[i]];
  }

  lemma ContentOrNothing(t: Tree, ref: DirRef, dirSet: set<Id>, fileSet: set<Id>)
    requires t.Ok()
    requires if ref in Refs(t.dirs) then dirSet == DirsIn(t.dirs, ref) && fileSet == FilesIn(t.files, ref)
             else dirSet == {} && fileSet == {}
    ensures dirSet == DirsIn(t.dirs, ref) && fileSet == FilesIn(t.files, ref)
  {
    if ref !in Refs(t.dirs) {
      NoChildren(t.dirs, t.files, t.nextId, ref);
    }
  }

  // -- The order of the nodes --------------------------------------------------------------------

  /** Nodes of different kinds or names are in order. */
  lemma NodesOrder(members: set<TreeNode>)
    requires forall a, b :: a in members && b in members && a.isDir == b.isDir && a.name == b.name ==> a == b
    ensures Orders(NodeBefore, members)
  {
    hide NameLeq;
    forall a, b | a in members && b in members
      ensures a != b ==> NodeBefore(a, b) || NodeBefore(b, a)
      ensures NodeBefore(a, b) ==> !NodeBefore(b, a)
    {
      NameLeqTotal(a.name, b.name);
      if NameLeq(a.name, b.name) && NameLeq(b.name, a.name) {
        NameLeqAntisymmetric(a.name, b.name);
      }
    }
    forall a, b, c | a in members && b in members && c in members && NodeBefore(a, b) && NodeBefore(b, c)
      ensures NodeBefore(a, c)
    {
      if a.isDir == b.isDir == c.isDir {
        NameLeqTransitive(a.name, b.name, c.name);
      }
    }
  }

  lemma DirNodeAt(t: Tree, low: nat, ids: seq<Id>, i: nat)
    requires t.Ok() && DirsAbove(t, low, ids) && i < |ids|
    ensures |DirNodes(t, low, ids)| == |ids| && ids[i] in t.dirs
    ensures var node := DirNodes(t, low, ids)[i]; node.isDir && node.name == t.dirs[ids[i]].name
  {
    hide TreeOk, Nodes;
    assert ids[i] in ids;
  }

  lemma NodesAscend(t: Tree, ref: DirRef)
    requires t.Ok()
    ensures Ascending(NodeBefore, Nodes(t, ref))
  {
    hide TreeOk, DirNode, NameLeq, DirNodes, ChildDirs, ChildFiles;
    var nodes, dirs, files := Nodes(t, ref), ChildDirs(t, ref), ChildFiles(t, ref);
    SiblingsAscend(t, ref);
    forall i, j | 0 <= i < j < |nodes|
      ensures NodeBefore(nodes[i], nodes[j])
    {
      assert |DirNodes(t, RefNumber(ref), dirs)| == |dirs| by {
        if dirs != [] {
          DirNodeAt(t, RefNumber(ref), dirs, 0);
        } else {
          NoNodes(t, RefNumber(ref));
        }
      }
      if i < |dirs| {
        DirNodeAt(t, RefNumber(ref), dirs, i);
      }
      if j < |dirs| {
        DirNodeAt(t, RefNumber(ref), dirs, j);
      }
    }
  }

  lemma SiblingsAscend(t: Tree, ref: DirRef)
    requires t.Ok()
    ensures var ids := ChildDirs(t, ref);
            forall i, j :: 0 <= i < j < |ids| ==> ByName(DirNames(t.dirs))(ids[i], ids[j])
    ensures var ids := ChildFiles(t, ref);
            forall i, j :: 0 <= i < j < |ids| ==> ByName(FileNames(t.files))(ids[i], ids[j])
  {
    SiblingsOrder(t.dirs, t.files, t.nextId, ref);
  }

  /** Nodes collected in any order are the nodes of the directory. */
  lemma SameNodes(t: Tree, ref: DirRef, dirIds: seq<Id>, fileIds: seq<Id>, nodes: seq<TreeNode>, members: set<TreeNode>)
    requires t.Ok() && DirsAbove(t, RefNumber(ref), dirIds) && Distinct(dirIds) && Distinct(fileIds)
    requires forall id :: id in dirIds <==> id in DirsIn(t.dirs, ref)
    requires forall id :: id in fileIds <==> id in FilesIn(t.files, ref)
    requires nodes == DirNodes(t, RefNumber(ref), dirIds) + FileNodes(t, fileIds)
    requires members == set node | node in nodes
    ensures Orders(NodeBefore, members) && Distinct(nodes) && InOrder(NodeBefore, members, Nodes(t, ref))
  {
    hide TreeOk, NodeBefore, DirNodes, FileNodes, Distinct;
    var low, dirs, files := RefNumber(ref), ChildDirs(t, ref), ChildFiles(t, ref);
    NodesAscend(t, ref);
    SameDirNodes(t, low, dirIds, dirs);
    SameFileNodes(t, fileIds, files);
    assert forall node :: node in nodes <==> node in Nodes(t, ref);
    KeysTell(Nodes(t, ref), members);
    NodesOrder(members);
    NodesDistinct(t, ref, dirIds, fileIds);
  }

  lemma KeysTell(nodes: seq<TreeNode>, members: set<TreeNode>)
    requires Ascending(NodeBefore, nodes) && forall node :: node in members <==> node in nodes
    ensures forall a, b :: a in members && b in members && a.isDir == b.isDir && a.name == b.name ==> a == b
  {
    forall a, b | a in members && b in members && a.isDir == b.isDir && a.name == b.name
      ensures a == b
    {
      var i :| 0 <= i < |nodes| && nodes[i] == a;
      var j :| 0 <= j < |nodes| && nodes[j] == b;
    }
  }

  lemma SameDirNodes(t: Tree, low: nat, a: seq<Id>, b: seq<Id>)
    requires t.Ok() && DirsAbove(t, low, a) && DirsAbove(t, low, b) && forall id :: id in a <==> id in b
    ensures forall node :: node in DirNodes(t, low, a) <==> node in DirNodes(t, low, b)
  {
    hide TreeOk, DirNode;
    forall node | node in DirNodes(t, low, a)
      ensures node in DirNodes(t, low, b)
    {
      DirNodeIn(t, low, a, b, node);
    }
    forall node | node in DirNodes(t, low, b)
      ensures node in DirNodes(t, low, a)
    {
      DirNodeIn(t, low, b, a, node);
    }
  }

  lemma DirNodeIn(t: Tree, low: nat, a: seq<Id>, b: seq<Id>, node: TreeNode)
    requires t.Ok() && DirsAbove(t, low, a) && DirsAbove(t, low, b) && forall id :: id in a ==> id in b
    requires node in DirNodes(t, low, a)
    ensures node in DirNodes(t, low, b)
  {
    hide TreeOk, DirNode;
    var i :| 0 <= i < |a| && DirNodes(t, low, a)[i] == node;
    assert a[i] in a;
    var j :| 0 <= j < |b| && b[j] == a[i];
    assert DirNodes(t, low, b)[j] == node;
  }

  lemma SameFileNodes(t: Tree, a: seq<Id>, b: seq<Id>)
    requires (forall id :: id in a ==> id in t.files) && forall id :: id in a <==> id in b
    ensures forall node :: node in FileNodes(t, a) <==> node in FileNodes(t, b)
  {
    forall node | node in FileNodes(t, a)
      ensures node in FileNodes(t, b)
    {
      FileNodeIn(t, a, b, node);
    }
    forall node | node in FileNodes(t, b)
      ensures node in FileNodes(t, a)
    {
      FileNodeIn(t, b, a, node);
    }
  }

  lemma FileNodeIn(t: Tree, a: seq<Id>, b: seq<Id>, node: TreeNode)
    requires (forall id :: id in a ==> id in t.files) && (forall id :: id in b ==> id in t.files)
    requires (forall id :: id in a ==> id in b) && node in FileNodes(t, a)
    ensures node in FileNodes(t, b)
  {
    var i :| 0 <= i < |a| && FileNodes(t, a)[i] == node;
    assert a[i] in a;
    var j :| 0 <= j < |b| && b[j] == a[i];
    assert FileNodes(t, b)[j] == node;
  }

  lemma NodesDistinct(t: Tree, ref: DirRef, dirIds: seq<Id>, fileIds: seq<Id>)
    requires t.Ok() && DirsAbove(t, RefNumber(ref), dirIds) && Distinct(dirIds) && Distinct(fileIds)
    requires forall id :: id in dirIds <==> id in DirsIn(t.dirs, ref)
    requires forall id :: id in fileIds <==> id in FilesIn(t.files, ref)
    ensures Distinct(DirNodes(t, RefNumber(ref), dirIds) + FileNodes(t, fileIds))
  {
    hide TreeOk, DirNode, DirNodes, Distinct;
    SiblingsOrder(t.dirs, t.files, t.nextId, ref);
    var dirNodes, fileNodes := DirNodes(t, RefNumber(ref), dirIds), FileNodes(t, fileIds);
    assert (set id | id in dirIds) == DirsIn(t.dirs, ref) && (set id | id in fileIds) == FilesIn(t.files, ref);
    DirNodesDistinct(t, RefNumber(ref), dirIds);
    FileNodesDistinct(t, fileIds);
    forall node | node in dirNodes
      ensures node !in fileNodes
    {
      KindOfDir(t, RefNumber(ref), dirIds, node);
    }
    DistinctConcat(dirNodes, fileNodes);
  }

  lemma KindOfDir(t: Tree, low: nat, ids: seq<Id>, node: TreeNode)
    requires t.Ok() && DirsAbove(t, low, ids) && node in DirNodes(t, low, ids)
    ensures node.isDir
  {
    hide TreeOk, Nodes;
    var i :| 0 <= i < |ids| && DirNodes(t, low, ids)[i] == node;
    assert ids[i] in ids;
  }

  lemma DirNodesDistinct(t: Tree, low: nat, ids: seq<Id>)
    requires t.Ok() && DirsAbove(t, low, ids) && Distinct(ids)
    requires Orders(ByName(DirNames(t.dirs)), set id | id in ids)
    ensures Distinct(DirNodes(t, low, ids))
  {
    hide TreeOk, Nodes, NameLeq;
    var members := set id | id in ids;
    forall i, j | 0 <= i < j < |ids|
      ensures t.dirs[ids[i]].name != t.dirs[ids[j]].name
    {
      assert ids[i] in members && ids[j] in members;
    }
  }

  lemma FileNodesDistinct(t: Tree, ids: seq<Id>)
    requires (forall id :: id in ids ==> id in t.files) && Distinct(ids)
    requires Orders(ByName(FileNames(t.files)), set id | id in ids)
    ensures Distinct(FileNodes(t, ids))
  {
    hide NameLeq;
    var members := set id | id in ids;
    forall i, j | 0 <= i < j < |ids|
      ensures t.files[ids[i]].name != t.files[ids[j]].name
    {
      assert ids[i] in members && ids[j] in members;
    }
  }
}
