/** Opening an archive: everything in memory is rebuilt from the bytes. */
module Reopening {
  import opened Wrappers
  import opened Bytes
  import opened Entries
  import opened Segments
  import opened Headers
  import opened Coverages
  import opened FileTable
  import opened Layouts
  import opened Rescans
  import opened States
  import opened Health

  // -- The chain of segments ---------------------------------------------------------------------

  datatype Table = Table(addrs: seq<nat>, segs: Segs)

  function Linked(addr: nat, segment: FileTableSegment, rest: Table): Table {
    Table([addr] + rest.addrs, [segment] + rest.segs)
  }

  /** The segments met from `addr` on, or the first decoding error; `None` if `fuel` links do not reach an end. */
  function WalkChain(data: seq<Byte>, addr: nat, fuel: nat): Option<Result<Table, SegmentDecodingError>>
    decreases fuel
  {
    match DecodeSegment(data, addr)
    case Err(error) => Some(Err(error))
    case Ok(segment) =>
      match segment.nextSegmentAddr
      case None => Some(Ok(Table([addr], [segment])))
      case Some(next) =>
        if fuel == 0 then None
        else
          match WalkChain(data, next, fuel - 1)
          case None => None
          case Some(Err(error)) => Some(Err(error))
          case Some(Ok(rest)) => Some(Ok(Linked(addr, segment, rest)))
  }

  lemma {:induction false} WalkChainTables(data: seq<Byte>, addr: nat, fuel: nat)
    ensures var r := WalkChain(data, addr, fuel);
            r.Some? && r.value.Ok? ==> |r.value.value.addrs| == |r.value.value.segs| > 0
    decreases fuel
  {
    hide DecodeSegment;
    var decoded := DecodeSegment(data, addr);
    if decoded.Ok? && decoded.value.nextSegmentAddr.Some? && fuel > 0 {
      WalkChainTables(data, decoded.value.nextSegmentAddr.value, fuel - 1);
    }
  }

  /** Each address but the first is the one that the segment stored at the address before it points to. */
  ghost predicate Leads(data: seq<Byte>, addrs: seq<nat>) {
    forall i :: 0 <= i < |addrs| - 1 ==>
      DecodeSegment(data, addrs[i]).Ok? && DecodeSegment(data, addrs[i]).value.nextSegmentAddr == Some(addrs[i + 1])
  }

  /** The segments read at these addresses, along the pointers, up to one that points nowhere. */
  ghost predicate IsChainAt(data: seq<Byte>, addr: nat, t: Table) {
    && |t.addrs| == |t.segs| > 0 && t.addrs[0] == addr && Leads(data, t.addrs)
    && (forall i :: 0 <= i < |t.segs| ==> DecodeSegment(data, t.addrs[i]) == Ok(t.segs[i]))
    && t.segs[|t.segs| - 1].nextSegmentAddr.None?
  }

  /** A segment that cannot be read, and the way to it. */
  ghost predicate BreaksAt(data: seq<Byte>, addr: nat, error: SegmentDecodingError) {
    exists addrs :: && |addrs| > 0 && addrs[0] == addr && Leads(data, addrs)
                    && DecodeSegment(data, addrs[|addrs| - 1]) == Err(error)
  }

  /** What the walk finds is the chain that the pointers make, and what it reports is the first segment that is broken. */
  lemma {:induction false} WalkFinds(data: seq<Byte>, addr: nat, fuel: nat)
    ensures WalkChain(data, addr, fuel).Some? ==>
              match WalkChain(data, addr, fuel).value
              case Ok(t) => IsChainAt(data, addr, t)
              case Err(error) => BreaksAt(data, addr, error)
    decreases fuel
  {
    hide DecodeSegment;
    var decoded := DecodeSegment(data, addr);
    if decoded.Err? {
      assert Leads(data, [addr]);
    } else if decoded.value.nextSegmentAddr.Some? && fuel > 0 {
      var next := decoded.value.nextSegmentAddr.value;
      WalkFinds(data, next, fuel - 1);
      var rest := WalkChain(data, next, fuel - 1);
      if rest.Some? && rest.value.Err? {
        var addrs :| |addrs| > 0 && addrs[0] == next && Leads(data, addrs)
                     && DecodeSegment(data, addrs[|addrs| - 1]) == Err(rest.value.error);
        OneMoreLink(data, addr, addrs);
        assert ([addr] + addrs)[|addrs|] == addrs[|addrs| - 1];
      } else if rest.Some? {
        OneMoreLink(data, addr, rest.value.value.addrs);
      }
    }
  }

  lemma OneMoreLink(data: seq<Byte>, addr: nat, addrs: seq<nat>)
    requires |addrs| > 0 && Leads(data, addrs)
    requires DecodeSegment(data, addr).Ok? && DecodeSegment(data, addr).value.nextSegmentAddr == Some(addrs[0])
    ensures Leads(data, [addr] + addrs)
  {
    hide DecodeSegment;
  }

  /** A longer walk finds the same table. */
  lemma {:induction false} WalkChainStable(data: seq<Byte>, addr: nat, fuel: nat, more: nat)
    requires WalkChain(data, addr, fuel).Some? && fuel <= more
    ensures WalkChain(data, addr, more) == WalkChain(data, addr, fuel)
    decreases fuel
  {
    hide DecodeSegment;
    var decoded := DecodeSegment(data, addr);
    if decoded.Ok? && decoded.value.nextSegmentAddr.Some? {
      WalkChainStable(data, decoded.value.nextSegmentAddr.value, fuel - 1, more - 1);
    }
  }

  // -- Maps and identifiers ----------------------------------------------------------------------

  function DirMap(ds: seq<Directory>): Dirs {
    if ds == [] then map[] else DirMap(ds[..|ds| - 1])[ds[|ds| - 1].id := ds[|ds| - 1]]
  }

  function FileMap(fs: seq<File>): Files {
    if fs == [] then map[] else FileMap(fs[..|fs| - 1])[fs[|fs| - 1].id := fs[|fs| - 1]]
  }

  /** One above the largest identifier, or 1 if there is none. */
  ghost predicate IsNextId(ids: set<Id>, next: nat) {
    && next > 0
    && (forall id :: id in ids ==> id < next)
    && (next == 1 || exists id :: id in ids && id + 1 == next)
  }

  method CollectDirs(ds: seq<Directory>) returns (dirs: Dirs)
    ensures dirs == DirMap(ds)
  {
    dirs := map[];
    assert ds[..0] == [];
    for i := 0 to |ds|
      invariant dirs == DirMap(ds[..i])
    {
      dirs := dirs[ds[i].id := ds[i]];
      assert ds[..i + 1][..i] == ds[..i];
    }
    assert ds[..|ds|] == ds;
  }

  method CollectFiles(fs: seq<File>) returns (files: Files)
    ensures files == FileMap(fs)
  {
    files := map[];
    assert fs[..0] == [];
    for i := 0 to |fs|
      invariant files == FileMap(fs[..i])
    {
      files := files[fs[i].id := fs[i]];
      assert fs[..i + 1][..i] == fs[..i];
    }
    assert fs[..|fs|] == fs;
  }

  /** Of several entries with one identifier the last one is kept. */
  lemma {:induction false} LastDirKept(ds: seq<Directory>, i: nat)
    requires i < |ds| && forall j :: i < j < |ds| ==> ds[j].id != ds[i].id
    ensures ds[i].id in DirMap(ds) && DirMap(ds)[ds[i].id] == ds[i]
  {
    if i < |ds| - 1 {
      LastDirKept(ds[..|ds| - 1], i);
    }
  }

  lemma {:induction false} LastFileKept(fs: seq<File>, i: nat)
    requires i < |fs| && forall j :: i < j < |fs| ==> fs[j].id != fs[i].id
    ensures fs[i].id in FileMap(fs) && FileMap(fs)[fs[i].id] == fs[i]
  {
    if i < |fs| - 1 {
      LastFileKept(fs[..|fs| - 1], i);
    }
  }

  method NextIdAfter(ids: set<Id>) returns (next: nat)
    ensures IsNextId(ids, next)
  {
    next := 1;
    var rest := ids;
    while rest != {}
      invariant rest <= ids
      invariant IsNextId(ids - rest, next)
      decreases |rest|
    {
      var id :| id in rest;
      assert ids - (rest - {id}) == (ids - rest) + {id};
      rest := rest - {id};
      if id >= next {
        next := id + 1;
      }
    }
    assert ids - rest == ids;
  }

  lemma NextIdUnique(ids: set<Id>, a: nat, b: nat)
    requires IsNextId(ids, a) && IsNextId(ids, b)
    ensures a == b
  {
  }

  // -- A stored table is the table that is found -------------------------------------------------

  /** The addresses of the segments of a table. */
  function Addresses(segs: Segs): seq<nat> {
    seq(|segs|, i requires 0 <= i < |segs| => SegmentAddr(segs, i))
  }

  lemma AddressesFrom(segs: Segs, i: nat)
    requires i < |segs|
    ensures |Addresses(segs)| == |segs|
    ensures Addresses(segs)[i..] == [SegmentAddr(segs, i)] + Addresses(segs)[i + 1..]
    ensures i == |segs| - 1 ==> Addresses(segs)[i..] == [SegmentAddr(segs, i)]
    ensures segs[i..] == [segs[i]] + segs[i + 1..] && (i == |segs| - 1 ==> segs[i..] == [segs[i]])
  {
  }

  lemma {:induction false} WalkFrom(data: seq<Byte>, segs: Segs, i: nat)
    requires TableShape(segs) && OnDisk(data, segs) && i < |segs|
    ensures WalkChain(data, SegmentAddr(segs, i), |segs| - 1 - i) == Some(Ok(Table(Addresses(segs)[i..], segs[i..])))
    decreases |segs| - i
  {
    hide EncodeSegment, EncodeHeader, DecodeSegment, At, Addresses, WalkChain;
    assert segs[i].nextSegmentAddr != Some(0) && At(data, SegmentAddr(segs, i), EncodeSegment(segs[i]));
    SegmentRoundTrip(data, SegmentAddr(segs, i), segs[i]);
    AddressesFrom(segs, i);
    if i == |segs| - 1 {
      WalkEnds(data, SegmentAddr(segs, i), segs[i], 0);
    } else {
      WalkFrom(data, segs, i + 1);
      WalkGoesOn(data, SegmentAddr(segs, i), segs[i], SegmentAddr(segs, i + 1), |segs| - 1 - i,
                 Table(Addresses(segs)[i + 1..], segs[i + 1..]));
    }
  }

  lemma WalkEnds(data: seq<Byte>, addr: nat, segment: FileTableSegment, fuel: nat)
    requires DecodeSegment(data, addr) == Ok(segment) && segment.nextSegmentAddr.None?
    ensures WalkChain(data, addr, fuel) == Some(Ok(Table([addr], [segment])))
  {
    hide DecodeSegment;
  }

  lemma WalkGoesOn(data: seq<Byte>, addr: nat, segment: FileTableSegment, next: nat, fuel: nat, rest: Table)
    requires DecodeSegment(data, addr) == Ok(segment) && segment.nextSegmentAddr == Some(next) && fuel > 0
    requires WalkChain(data, next, fuel - 1) == Some(Ok(rest))
    ensures WalkChain(data, addr, fuel) == Some(Ok(Table([addr] + rest.addrs, [segment] + rest.segs)))
  {
    hide DecodeSegment;
  }

  // -- Flattened slots ---------------------------------------------------------------------------

  function Cell<T>(rows: seq<seq<Option<T>>>, i: nat, j: nat): Option<T> {
    if i < |rows| && j < |rows[i]| then rows[i][j] else None
  }

  ghost predicate InRow<T>(row: seq<Option<T>>, x: T) {
    exists j: nat :: j < |row| && row[j] == Some(x)
  }

  lemma {:induction false} FilledMember<T>(row: seq<Option<T>>, x: T)
    ensures x in Filled(row) <==> InRow(row, x)
  {
    if row != [] {
      var rest := row[1..];
      FilledMember(rest, x);
      assert forall j: nat :: j < |rest| ==> rest[j] == row[j + 1];
      if InRow(row, x) && row[0] != Some(x) {
        var j: nat :| j < |row| && row[j] == Some(x);
        assert rest[j - 1] == Some(x);
      }
      if InRow(rest, x) {
        var j: nat :| j < |rest| && rest[j] == Some(x);
        assert row[j + 1] == Some(x);
      }
    }
  }

  ghost predicate InRows<T>(rows: seq<seq<Option<T>>>, x: T) {
    exists i: nat :: i < |rows| && InRow(rows[i], x)
  }

  lemma {:induction false} FlattenMember<T>(rows: seq<seq<Option<T>>>, x: T)
    ensures x in Flatten(rows) <==> InRows(rows, x)
  {
    hide InRow;
    if rows != [] {
      var rest := rows[1..];
      FilledMember(rows[0], x);
      FlattenMember(rest, x);
      assert forall i: nat :: i < |rest| ==> rest[i] == rows[i + 1];
      if InRows(rows, x) && !InRow(rows[0], x) {
        var i: nat :| i < |rows| && InRow(rows[i], x);
        assert InRow(rest[i - 1], x);
      }
      if InRows(rest, x) {
        var i: nat :| i < |rest| && InRow(rest[i], x);
        assert InRow(rows[i + 1], x);
      }
    }
  }

  /** No key is found in two cells. */
  ghost predicate KeyedOnce<T(!new)>(rows: seq<seq<Option<T>>>, key: T -> Id) {
    forall i: nat, j: nat, m: nat, n: nat :: SameKey(rows, key, i, j, m, n) ==> i == m && j == n
  }

  ghost predicate SameKey<T(!new)>(rows: seq<seq<Option<T>>>, key: T -> Id, i: nat, j: nat, m: nat, n: nat) {
    Cell(rows, i, j).Some? && Cell(rows, m, n).Some? && key(Cell(rows, i, j).value) == key(Cell(rows, m, n).value)
  }

  function Keys<T>(s: seq<T>, key: T -> Id): seq<Id> {
    seq(|s|, i requires 0 <= i < |s| => key(s[i]))
  }

  lemma {:induction false} FilledKeys<T(!new)>(row: seq<Option<T>>, key: T -> Id)
    requires forall j: nat, n: nat :: j < n < |row| && row[j].Some? && row[n].Some? ==>
               key(row[j].value) != key(row[n].value)
    ensures NoRepeat(Keys(Filled(row), key))
  {
    if row != [] {
      var rest := row[1..];
      assert forall j: nat :: j < |rest| ==> rest[j] == row[j + 1];
      FilledKeys(rest, key);
      if row[0].Some? {
        var x := row[0].value;
        forall y | y in Filled(rest)
          ensures key(x) != key(y)
        {
          FilledMember(rest, y);
          var n: nat :| n < |rest| && rest[n] == Some(y);
          assert row[n + 1] == Some(y);
        }
        AppendKeys([x], Filled(rest), key);
      }
    }
  }

  lemma AppendKeys<T>(front: seq<T>, back: seq<T>, key: T -> Id)
    requires NoRepeat(Keys(front, key)) && NoRepeat(Keys(back, key))
    requires forall x, y :: x in front && y in back ==> key(x) != key(y)
    ensures NoRepeat(Keys(front + back, key))
  {
    var all := Keys(front + back, key);
    forall i, j | 0 <= i < j < |all|
      ensures all[i] != all[j]
    {
      if j < |front| {
        assert all[i] == Keys(front, key)[i] && all[j] == Keys(front, key)[j];
      } else if i >= |front| {
        assert all[i] == Keys(back, key)[i - |front|] && all[j] == Keys(back, key)[j - |front|];
      } else {
        assert front[i] in front && back[j - |front|] in back;
      }
    }
  }

  lemma {:induction false} FlattenKeys<T(!new)>(rows: seq<seq<Option<T>>>, key: T -> Id)
    requires KeyedOnce(rows, key)
    ensures NoRepeat(Keys(Flatten(rows), key))
  {
    if rows != [] {
      var row, rest := rows[0], rows[1..];
      forall i: nat, j: nat
        ensures Cell(rest, i, j) == Cell(rows, i + 1, j)
      {
      }
      assert KeyedOnce(rest, key) by {
        forall i: nat, j: nat, m: nat, n: nat | SameKey(rest, key, i, j, m, n)
          ensures i == m && j == n
        {
          assert SameKey(rows, key, i + 1, j, m + 1, n);
        }
      }
      FlattenKeys(rest, key);
      forall j: nat, n: nat | j < n < |row| && row[j].Some? && row[n].Some?
        ensures key(row[j].value) != key(row[n].value)
      {
        assert Cell(rows, 0, j) == row[j] && Cell(rows, 0, n) == row[n];
        assert !SameKey(rows, key, 0, j, 0, n);
      }
      FilledKeys(row, key);
      forall x, y | x in Filled(row) && y in Flatten(rest)
        ensures key(x) != key(y)
      {
        FilledMember(row, x);
        FlattenMember(rest, y);
        var j: nat :| j < |row| && row[j] == Some(x);
        var m: nat :| m < |rest| && InRow(rest[m], y);
        assert InRow(rest[m], y);
        var n: nat :| n < |rest[m]| && rest[m][n] == Some(y);
        assert Cell(rows, 0, j) == Some(x) && Cell(rest, m, n) == Some(y) && Cell(rows, m + 1, n) == Some(y);
        assert !SameKey(rows, key, 0, j, m + 1, n);
      }
      AppendKeys(Filled(row), Flatten(rest), key);
    }
  }

  // -- The maps are rebuilt ----------------------------------------------------------------------

  function DirKey(dir: Directory): Id {
    dir.id
  }

  function FileKey(file: File): Id {
    file.id
  }

  /** The listed directories are exactly the ones of the map. */
  ghost predicate DirsOf(ds: seq<Directory>, dirs: Dirs) {
    && (forall d :: d in ds <==> d.id in dirs && dirs[d.id] == d)
    && (forall id :: id in dirs ==> dirs[id].id == id)
    && NoRepeat(DirIds(ds))
  }

  ghost predicate FilesOf(fs: seq<File>, files: Files) {
    && (forall f :: f in fs <==> f.id in files && files[f.id] == f)
    && (forall id :: id in files ==> files[id].id == id)
    && NoRepeat(Keys(fs, FileKey))
  }

  lemma FlatDirs(segs: Segs, dirs: Dirs, files: Files)
    requires SlotsMatch(segs, dirs, files)
    ensures DirsOf(FilledDirs(segs), dirs)
  {
    hide Flatten, InRows, KeyedOnce;
    DirRowsKeyed(segs, dirs, files);
    FlattenKeys(DirRows(segs), DirKey);
    assert DirIds(FilledDirs(segs)) == Keys(FilledDirs(segs), DirKey);
    forall d: Directory
      ensures d in FilledDirs(segs) <==> d.id in dirs && dirs[d.id] == d
    {
      FlattenMember(DirRows(segs), d);
      DirInRows(segs, dirs, files, d);
    }
    forall id | id in dirs
      ensures dirs[id].id == id
    {
      assert Lookup(dirs, files, DirId(id)).Some?;
    }
  }

  lemma DirInRows(segs: Segs, dirs: Dirs, files: Files, d: Directory)
    requires SlotsMatch(segs, dirs, files)
    ensures InRows(DirRows(segs), d) <==> d.id in dirs && dirs[d.id] == d
  {
    if InRows(DirRows(segs), d) {
      var i: nat :| i < |segs| && InRow(DirRows(segs)[i], d);
      assert InRow(segs[i].dirs, d);
      var j: nat :| j < |segs[i].dirs| && segs[i].dirs[j] == Some(d);
      assert ItemAt(segs, DirSlot(i, j)) == Some(DirItem(d));
    }
    if d.id in dirs && dirs[d.id] == d {
      assert Lookup(dirs, files, DirId(d.id)) == Some(DirItem(d));
      assert Stored(segs, DirItem(d), DirId(d.id));
      var s :| ItemAt(segs, s) == Some(DirItem(d));
      assert DirRows(segs)[s.seg][s.idx] == Some(d);
      assert InRow(DirRows(segs)[s.seg], d);
    }
  }

  lemma DirRowsKeyed(segs: Segs, dirs: Dirs, files: Files)
    requires SlotsMatch(segs, dirs, files)
    ensures KeyedOnce(DirRows(segs), DirKey)
  {
    hide Lookup, Stored;
    forall i: nat, j: nat, m: nat, n: nat | SameKey(DirRows(segs), DirKey, i, j, m, n)
      ensures i == m && j == n
    {
      assert Cell(DirRows(segs), i, j).Some? && Cell(DirRows(segs), m, n).Some?;
      assert SameIdentifier(segs, DirSlot(i, j), DirSlot(m, n));
    }
  }

  lemma FlatFiles(segs: Segs, dirs: Dirs, files: Files)
    requires SlotsMatch(segs, dirs, files)
    ensures FilesOf(FilledFiles(segs), files)
  {
    hide Flatten, InRows, KeyedOnce;
    FileRowsKeyed(segs, dirs, files);
    FlattenKeys(FileRows(segs), FileKey);
    forall f: File
      ensures f in FilledFiles(segs) <==> f.id in files && files[f.id] == f
    {
      FlattenMember(FileRows(segs), f);
      FileInRows(segs, dirs, files, f);
    }
    forall id | id in files
      ensures files[id].id == id
    {
      assert Lookup(dirs, files, FileId(id)).Some?;
    }
  }

  lemma FileInRows(segs: Segs, dirs: Dirs, files: Files, f: File)
    requires SlotsMatch(segs, dirs, files)
    ensures InRows(FileRows(segs), f) <==> f.id in files && files[f.id] == f
  {
    if InRows(FileRows(segs), f) {
      var i: nat :| i < |segs| && InRow(FileRows(segs)[i], f);
      assert InRow(segs[i].files, f);
      var j: nat :| j < |segs[i].files| && segs[i].files[j] == Some(f);
      assert ItemAt(segs, FileSlot(i, j)) == Some(FileItem(f));
    }
    if f.id in files && files[f.id] == f {
      assert Lookup(dirs, files, FileId(f.id)) == Some(FileItem(f));
      assert Stored(segs, FileItem(f), FileId(f.id));
      var s :| ItemAt(segs, s) == Some(FileItem(f));
      assert FileRows(segs)[s.seg][s.idx] == Some(f);
      assert InRow(FileRows(segs)[s.seg], f);
    }
  }

  lemma FileRowsKeyed(segs: Segs, dirs: Dirs, files: Files)
    requires SlotsMatch(segs, dirs, files)
    ensures KeyedOnce(FileRows(segs), FileKey)
  {
    hide Lookup, Stored;
    forall i: nat, j: nat, m: nat, n: nat | SameKey(FileRows(segs), FileKey, i, j, m, n)
      ensures i == m && j == n
    {
      assert Cell(FileRows(segs), i, j).Some? && Cell(FileRows(segs), m, n).Some?;
      assert SameIdentifier(segs, FileSlot(i, j), FileSlot(m, n));
    }
  }

  lemma {:induction false} DirMapEntries(ds: seq<Directory>)
    ensures forall id :: id in DirMap(ds) ==> DirMap(ds)[id] in ds && DirMap(ds)[id].id == id
    ensures forall d :: d in ds ==> d.id in DirMap(ds)
  {
    if ds != [] {
      var n := |ds| - 1;
      DirMapEntries(ds[..n]);
      assert ds == ds[..n] + [ds[n]];
    }
  }

  lemma {:induction false} FileMapEntries(fs: seq<File>)
    ensures forall id :: id in FileMap(fs) ==> FileMap(fs)[id] in fs && FileMap(fs)[id].id == id
    ensures forall f :: f in fs ==> f.id in FileMap(fs)
  {
    if fs != [] {
      var n := |fs| - 1;
      FileMapEntries(fs[..n]);
      assert fs == fs[..n] + [fs[n]];
    }
  }

  lemma MapsRebuilt(ds: seq<Directory>, dirs: Dirs, fs: seq<File>, files: Files)
    requires DirsOf(ds, dirs) && FilesOf(fs, files)
    ensures DirMap(ds) == dirs && FileMap(fs) == files
  {
    DirsRebuilt(ds, dirs);
    FilesRebuilt(fs, files);
  }

  lemma DirsRebuilt(ds: seq<Directory>, dirs: Dirs)
    requires DirsOf(ds, dirs)
    ensures DirMap(ds) == dirs
  {
    hide DirMap, NoRepeat;
    DirMapEntries(ds);
    assert forall id :: id in dirs ==> dirs[id] in ds;
  }

  lemma FilesRebuilt(fs: seq<File>, files: Files)
    requires FilesOf(fs, files)
    ensures FileMap(fs) == files
  {
    hide FileMap, NoRepeat;
    FileMapEntries(fs);
    assert forall id :: id in files ==> files[id] in fs;
  }

  // -- The check passes --------------------------------------------------------------------------

  lemma HealthyTable(ds: seq<Directory>, fs: seq<File>, dirs: Dirs, files: Files, nextId: nat)
    requires DirsOf(ds, dirs) && FilesOf(fs, files) && TreeOk(dirs, files, nextId)
    ensures Healthy(ds, fs)
  {
    forall i, j | 0 <= i < j < |fs|
      ensures FileKeys(fs)[i] != FileKeys(fs)[j]
    {
      assert Keys(fs, FileKey)[i] != Keys(fs, FileKey)[j];
    }
    var places := DirPlaces(ds) + FilePlaces(fs);
    forall i, j | 0 <= i < j < |places|
      ensures places[i] != places[j]
    {
      PlacesDistinct(ds, fs, dirs, files, nextId, i, j);
    }
  }

  lemma PlacesDistinct(ds: seq<Directory>, fs: seq<File>, dirs: Dirs, files: Files, nextId: nat, i: nat, j: nat)
    requires DirsOf(ds, dirs) && FilesOf(fs, files) && TreeOk(dirs, files, nextId)
    requires i < j < |ds| + |fs|
    ensures (DirPlaces(ds) + FilePlaces(fs))[i] != (DirPlaces(ds) + FilePlaces(fs))[j]
  {
    hide DirPlaces, FilePlaces;
    var a := PlacedItem(ds, fs, i);
    var b := PlacedItem(ds, fs, j);
    PlacedLookup(ds, fs, dirs, files, i);
    PlacedLookup(ds, fs, dirs, files, j);
    assert a.Id() != b.Id() by {
      hide TreeOk;
      if j < |ds| {
        assert DirIds(ds)[i] != DirIds(ds)[j];
      } else if i >= |ds| {
        assert Keys(fs, FileKey)[i - |ds|] != Keys(fs, FileKey)[j - |ds|];
      }
    }
    assert !SameName(dirs, files, a.Id(), b.Id());
    hide TreeOk, DirsOf, FilesOf, Lookup;
    PlaceOfItem(ds, fs, i);
    PlaceOfItem(ds, fs, j);
  }

  lemma PlaceOfItem(ds: seq<Directory>, fs: seq<File>, i: nat)
    requires i < |ds| + |fs|
    ensures (DirPlaces(ds) + FilePlaces(fs))[i] == (PlacedItem(ds, fs, i).Parent(), PlacedItem(ds, fs, i).Name())
  {
  }

  function PlacedItem(ds: seq<Directory>, fs: seq<File>, i: nat): Item
    requires i < |ds| + |fs|
  {
    if i < |ds| then DirItem(ds[i]) else FileItem(fs[i - |ds|])
  }

  lemma PlacedLookup(ds: seq<Directory>, fs: seq<File>, dirs: Dirs, files: Files, i: nat)
    requires DirsOf(ds, dirs) && FilesOf(fs, files) && i < |ds| + |fs|
    ensures Lookup(dirs, files, PlacedItem(ds, fs, i).Id()) == Some(PlacedItem(ds, fs, i))
  {
    if i < |ds| {
      assert ds[i] in ds;
    } else {
      assert fs[i - |ds|] in fs;
    }
  }

  /** What the check returns for the slots of a valid archive is its listings. */
  lemma ListsGroup(content: map<DirRef, DirContent>, ds: seq<Directory>, fs: seq<File>, dirs: Dirs, files: Files, nextId: nat)
    requires DirsOf(ds, dirs) && FilesOf(fs, files) && TreeOk(dirs, files, nextId)
    requires Lists(content, ListedRefs(ds), ds, fs)
    ensures content == Group(dirs, files)
  {
    hide NoRepeat;
    SameRefs(ds, dirs);
    ParentsListed(ds, fs, dirs, files, nextId);
    forall ref | ref in Refs(dirs)
      ensures content[ref] == ChildrenOf(dirs, files, ref)
    {
      SameChildren(ds, fs, dirs, files, ref);
    }
    hide *;
    GroupIs(dirs, files, content);
  }

  lemma SameRefs(ds: seq<Directory>, dirs: Dirs)
    requires DirsOf(ds, dirs)
    ensures ListedRefs(ds) == Refs(dirs)
  {
    hide NoRepeat;
    assert forall id :: id in dirs ==> dirs[id] in ds;
  }

  lemma ParentsListed(ds: seq<Directory>, fs: seq<File>, dirs: Dirs, files: Files, nextId: nat)
    requires DirsOf(ds, dirs) && FilesOf(fs, files) && TreeOk(dirs, files, nextId)
    ensures ParentRefs(ds, fs) <= Refs(dirs)
  {
    hide NoRepeat, Refs;
    forall d | d in ds
      ensures d.parentDir in Refs(dirs)
    {
      assert WellPlaced(dirs, Lookup(dirs, files, DirId(d.id)).value, DirId(d.id), nextId);
    }
    forall f | f in fs
      ensures f.parentDir in Refs(dirs)
    {
      assert WellPlaced(dirs, Lookup(dirs, files, FileId(f.id)).value, FileId(f.id), nextId);
    }
  }

  lemma SameChildren(ds: seq<Directory>, fs: seq<File>, dirs: Dirs, files: Files, ref: DirRef)
    requires DirsOf(ds, dirs) && FilesOf(fs, files)
    ensures ListedUnder(ds, fs, ref) == ChildrenOf(dirs, files, ref)
  {
    hide NoRepeat;
    assert forall id :: id in dirs ==> dirs[id] in ds;
    assert forall id :: id in files ==> files[id] in fs;
    var listed, children := ListedUnder(ds, fs, ref), ChildrenOf(dirs, files, ref);
    assert listed.dirs == children.dirs;
    assert listed.files == children.files;
    assert (set d | d in ds && d.parentDir == ref :: d.name) ==
           (set id | id in dirs && dirs[id].parentDir == ref :: dirs[id].name);
    assert (set f | f in fs && f.parentDir == ref :: f.name) ==
           (set id | id in files && files[id].parentDir == ref :: files[id].name);
  }

  // -- The allocator is rebuilt ------------------------------------------------------------------

  function BlobOwners(files: seq<File>): seq<Owner> {
    if files == [] then [] else [BlobOwner(files[0].id)] + BlobOwners(files[1..])
  }

  /** The owners of the zones of a table, in the order the zones are marked. */
  function TableOwners(segs: Segs, first: nat): seq<Owner> {
    if segs == [] then []
    else [SegmentOwner(first)] + BlobOwners(Filled(segs[0].files)) + TableOwners(segs[1..], first + 1)
  }

  /** The zones are the ones of the owners. */
  ghost predicate ZonesOf(zones: seq<Extent>, owners: seq<Owner>, segs: Segs, files: Files) {
    && |zones| == |owners|
    && forall i :: 0 <= i < |zones| ==> zones[i] == ExtentOf(segs, files, owners[i])
  }

  lemma ZonesOfAppend(a: seq<Extent>, ao: seq<Owner>, b: seq<Extent>, bo: seq<Owner>, segs: Segs, files: Files)
    requires ZonesOf(a, ao, segs, files) && ZonesOf(b, bo, segs, files)
    ensures ZonesOf(a + b, ao + bo, segs, files)
  {
    hide ExtentOf;
  }

  lemma {:induction false} BlobZonesOf(fs: seq<File>, segs: Segs, files: Files)
    requires forall f :: f in fs ==> f.id in files && files[f.id] == f
    ensures ZonesOf(BlobZones(fs), BlobOwners(fs), segs, files)
    ensures |BlobOwners(fs)| == |fs| && forall i :: 0 <= i < |fs| ==> BlobOwners(fs)[i] == BlobOwner(fs[i].id)
  {
    if fs != [] {
      BlobZonesOf(fs[1..], segs, files);
      assert forall i :: 0 <= i < |fs| - 1 ==> fs[1..][i] == fs[i + 1];
      ZonesOfAppend([BlobExtent(fs[0])], [BlobOwner(fs[0].id)], BlobZones(fs[1..]), BlobOwners(fs[1..]), segs, files);
    }
  }

  ghost predicate Suffix(segs: Segs, part: Segs, addrs: seq<nat>, first: nat) {
    first <= |segs| && part == segs[first..] && addrs == Addresses(segs)[first..]
  }

  lemma {:induction false} TableZonesOf(segs: Segs, files: Files, part: Segs, addrs: seq<nat>, first: nat)
    requires Suffix(segs, part, addrs, first) && |addrs| == |part|
    requires forall f :: f in FilledFiles(part) ==> f.id in files && files[f.id] == f
    ensures ZonesOf(TableZones(addrs, part), TableOwners(part, first), segs, files)
    decreases |part|
  {
    if part != [] {
      var row, rest := Filled(part[0].files), part[1..];
      FilesFirst(part);
      TableZonesOf(segs, files, rest, addrs[1..], first + 1);
      BlobZonesOf(row, segs, files);
      var head, owner := [Extent(addrs[0], EncodedLen(part[0]))], [SegmentOwner(first)];
      assert ZonesOf(head, owner, segs, files);
      ZonesOfAppend(head, owner, BlobZones(row), BlobOwners(row), segs, files);
      ZonesOfAppend(head + BlobZones(row), owner + BlobOwners(row),
                    TableZones(addrs[1..], rest), TableOwners(rest, first + 1), segs, files);
    }
  }

  lemma FilesFirst(part: Segs)
    requires part != []
    ensures FilledFiles(part) == Filled(part[0].files) + FilledFiles(part[1..])
  {
    assert FileRows(part)[1..] == FileRows(part[1..]);
  }

  /** Which owners are listed. */
  lemma {:induction false} TableOwnersMembers(part: Segs, first: nat)
    ensures forall o :: o in TableOwners(part, first) <==>
              match o
              case HeaderOwner => false
              case SegmentOwner(i) => first <= i < first + |part|
              case BlobOwner(id) => exists f :: f in FilledFiles(part) && f.id == id
    decreases |part|
  {
    if part != [] {
      var row := Filled(part[0].files);
      FilesFirst(part);
      TableOwnersMembers(part[1..], first + 1);
      BlobOwnersMembers(row);
    }
  }

  lemma {:induction false} BlobOwnersMembers(fs: seq<File>)
    ensures forall o :: o in BlobOwners(fs) <==> o.BlobOwner? && exists f :: f in fs && f.id == o.id
  {
    if fs != [] {
      BlobOwnersMembers(fs[1..]);
      assert fs == [fs[0]] + fs[1..];
    }
  }

  lemma {:induction false} TableOwnersOnce(part: Segs, first: nat)
    requires NoRepeat(Keys(FilledFiles(part), FileKey))
    ensures NoRepeat(TableOwners(part, first))
    decreases |part|
  {
    if part != [] {
      var row, rest := Filled(part[0].files), part[1..];
      FilesFirst(part);
      SplitKeys(row, FilledFiles(rest));
      TableOwnersOnce(rest, first + 1);
      TableOwnersMembers(rest, first + 1);
      BlobOwnersMembers(row);
      BlobOwnersOnce(row);
      hide TableOwners, BlobOwners, Keys, FilledFiles;
      var later := TableOwners(rest, first + 1);
      AppendOnce(BlobOwners(row), later);
      AppendOnce([SegmentOwner(first)], BlobOwners(row) + later);
      assert TableOwners(part, first) == [SegmentOwner(first)] + (BlobOwners(row) + later) by {
        UnfoldOwners(part, first);
      }
    }
  }

  lemma UnfoldOwners(part: Segs, first: nat)
    requires part != []
    ensures TableOwners(part, first) ==
            [SegmentOwner(first)] + (BlobOwners(Filled(part[0].files)) + TableOwners(part[1..], first + 1))
  {
  }

  lemma AppendOnce<T>(front: seq<T>, back: seq<T>)
    requires NoRepeat(front) && NoRepeat(back) && forall x :: x in front ==> x !in back
    ensures NoRepeat(front + back)
  {
    var all := front + back;
    forall i, j | 0 <= i < j < |all|
      ensures all[i] != all[j]
    {
      if i < |front| <= j {
        assert all[i] in front && all[j] in back;
      }
    }
  }

  lemma SplitKeys(front: seq<File>, back: seq<File>)
    requires NoRepeat(Keys(front + back, FileKey))
    ensures NoRepeat(Keys(front, FileKey)) && NoRepeat(Keys(back, FileKey))
    ensures forall x, y :: x in front && y in back ==> x.id != y.id
  {
    var all := Keys(front + back, FileKey);
    assert forall i :: 0 <= i < |front| ==> all[i] == Keys(front, FileKey)[i];
    assert forall i :: 0 <= i < |back| ==> all[|front| + i] == Keys(back, FileKey)[i];
    forall x, y | x in front && y in back
      ensures x.id != y.id
    {
      var i :| 0 <= i < |front| && front[i] == x;
      var j :| 0 <= j < |back| && back[j] == y;
      KeyAt(front + back, i);
      KeyAt(front + back, |front| + j);
      assert all[i] != all[|front| + j];
    }
  }

  lemma BlobOwnersOnce(fs: seq<File>)
    requires NoRepeat(Keys(fs, FileKey))
    ensures NoRepeat(BlobOwners(fs))
  {
    BlobOwnersAt(fs);
    forall i, j | 0 <= i < j < |fs|
      ensures BlobOwners(fs)[i] != BlobOwners(fs)[j]
    {
      KeyAt(fs, i);
      KeyAt(fs, j);
      assert Keys(fs, FileKey)[i] != Keys(fs, FileKey)[j];
    }
  }

  lemma KeyAt(fs: seq<File>, i: nat)
    requires i < |fs|
    ensures Keys(fs, FileKey)[i] == fs[i].id
  {
    var key: File -> Id := FileKey;
    assert key(fs[i]) == FileKey(fs[i]);
  }

  lemma {:induction false} BlobOwnersAt(fs: seq<File>)
    ensures |BlobOwners(fs)| == |fs| && forall i :: 0 <= i < |fs| ==> BlobOwners(fs)[i] == BlobOwner(fs[i].id)
  {
    if fs != [] {
      BlobOwnersAt(fs[1..]);
      assert forall i :: 0 <= i < |fs| - 1 ==> fs[1..][i] == fs[i + 1];
    }
  }

  /** Rescanning the table of a valid archive never aborts, and gives the zones that the allocator tracks already. */
  lemma RescanAgrees(size: nat, used: seq<Extent>, segs: Segs, dirs: Dirs, files: Files)
    requires SlotsMatch(segs, dirs, files) && Layout(size, segs, files) && Tracks(used, segs, files)
    ensures MarkAll([], AllZones(Addresses(segs), segs)) == Some(used)
  {
    hide ExtentOf, SlotsMatch, Packed, TableZones, TableOwners;
    FlatFiles(segs, dirs, files);
    var addrs, fs := Addresses(segs), FilledFiles(segs);
    assert Suffix(segs, segs, addrs, 0);
    TableZonesOf(segs, files, segs, addrs, 0);
    TableOwnersOnce(segs, 0);
    TableOwnersMembers(segs, 0);
    var owners := [HeaderOwner] + TableOwners(segs, 0);
    var zones := AllZones(addrs, segs);
    AppendOnce([HeaderOwner], TableOwners(segs, 0));
    HeaderZone(segs, files);
    ZonesOfAppend([Extent(0, HEADER_SIZE)], [HeaderOwner], TableZones(addrs, segs), TableOwners(segs, 0), segs, files);
    OwnersCover(segs, files, fs, owners);
    ScanTracks(size, used, segs, files, zones, owners);
  }

  lemma HeaderZone(segs: Segs, files: Files)
    ensures ZonesOf([Extent(0, HEADER_SIZE)], [HeaderOwner], segs, files)
  {
  }

  /** Owners that are not listed own nothing. */
  ghost predicate CoversOwners(segs: Segs, files: Files, owners: seq<Owner>) {
    forall o :: o in owners || ExtentOf(segs, files, o) == Extent(0, 0)
  }

  lemma OwnersCover(segs: Segs, files: Files, fs: seq<File>, owners: seq<Owner>)
    requires FilesOf(fs, files) && fs == FilledFiles(segs)
    requires owners == [HeaderOwner] + TableOwners(segs, 0)
    ensures CoversOwners(segs, files, owners)
  {
    hide TableOwners, NoRepeat, FilledFiles;
    TableOwnersMembers(segs, 0);
    assert HeaderOwner in owners;
    forall o | o in TableOwners(segs, 0)
      ensures o in owners
    {
    }
    forall o
      ensures o in owners || ExtentOf(segs, files, o) == Extent(0, 0)
    {
      if o.BlobOwner? && o.id in files {
        assert files[o.id] in fs;
      }
    }
  }

  lemma ScanTracks(size: nat, used: seq<Extent>, segs: Segs, files: Files, zones: seq<Extent>, owners: seq<Owner>)
    requires Layout(size, segs, files) && Tracks(used, segs, files)
    requires ZonesOf(zones, owners, segs, files) && NoRepeat(owners) && CoversOwners(segs, files, owners)
    ensures MarkAll([], zones) == Some(used)
  {
    hide ExtentOf, Packed, MarkAll;
    assert PairwiseDisjoint(zones);
    EmptyPacked();
    MarkAllDisjoint([], zones);
    var r := MarkAll([], zones).value;
    forall e
      ensures e in r <==> e in used
    {
      if e in used {
        assert Owned(segs, files, e);
        var o :| ExtentOf(segs, files, o) == e;
        assert o in owners;
        var i :| 0 <= i < |owners| && owners[i] == o;
        assert zones[i] == e;
      }
      if e in r {
        var i :| 0 <= i < |zones| && zones[i] == e;
        assert ExtentOf(segs, files, owners[i]) == e;
        assert Owned(segs, files, e);
      }
    }
    PackedUnique(r, used);
  }

  lemma EmptyPacked()
    ensures Packed([]) && forall zones :: AllDisjoint(zones, [])
  {
  }

  // -- Reopening ---------------------------------------------------------------------------------

  /** The rescan does not abort, and if the table is healthy there is an identifier left after the ones in use. */
  ghost predicate Scannable(t: Table) {
    && |t.addrs| == |t.segs|
    && MarkAll([], AllZones(t.addrs, t.segs)).Some?
    && (Healthy(FilledDirs(t.segs), FilledFiles(t.segs)) ==>
          && (forall d :: d in FilledDirs(t.segs) ==> d.id + 1 < U64_LIMIT)
          && (forall f :: f in FilledFiles(t.segs) ==> f.id + 1 < U64_LIMIT))
  }

  /** Opening comes to an end, without aborting, on these bytes. */
  ghost predicate Openable(data: seq<Byte>) {
    && (exists fuel: nat :: WalkChain(data, HEADER_SIZE, fuel).Some?)
    && forall fuel: nat :: WalkChain(data, HEADER_SIZE, fuel).Some? && WalkChain(data, HEADER_SIZE, fuel).value.Ok? ==>
         Scannable(WalkChain(data, HEADER_SIZE, fuel).value.value)
  }

  /** What opening rebuilds from the bytes and the table found in them. */
  ghost predicate Rebuilt(st: State, data: seq<Byte>, t: Table) {
    && |t.addrs| == |t.segs|
    && st.disk == data && st.segs == t.segs
    && st.dirs == DirMap(FilledDirs(t.segs)) && st.files == FileMap(FilledFiles(t.segs))
    && Lists(st.content, ListedRefs(FilledDirs(t.segs)), FilledDirs(t.segs), FilledFiles(t.segs))
    && Some(st.used) == MarkAll([], AllZones(t.addrs, t.segs)) && st.len == |data|
    && IsNextId(st.dirs.Keys + st.files.Keys, st.nextId)
  }

  /** The disk of a valid archive can be opened: its header and its table are found, and the table is healthy. */
  lemma ReopenSucceeds(st: State, sha3: Hash)
    requires Inv(st, sha3) && st.nextId < U64_LIMIT
    ensures DecodeHeader(st.disk) == Ok(Header(One)) && Openable(st.disk)
    ensures var t := Table(Addresses(st.segs), st.segs);
            && |st.segs| > 0 && WalkChain(st.disk, HEADER_SIZE, |st.segs| - 1) == Some(Ok(t))
            && Healthy(FilledDirs(t.segs), FilledFiles(t.segs))
  {
    hide Inv, OnDisk, SlotsMatch, TreeOk, Group, Layout, Tracks, DigestsMatch, WalkChain, DecodeHeader, MarkAll, FilledDirs,
      FilledFiles, Healthy, EncodeHeader, At, DirsOf, FilesOf;
    InvParts(st, sha3);
    assert At(st.disk, 0, EncodeHeader(Header(One))) by {
      HeaderStored(st.disk, st.segs);
    }
    HeaderAcceptedIffEncoded(st.disk, Header(One));
    WalkFrom(st.disk, st.segs, 0);
    var t := Table(Addresses(st.segs), st.segs);
    assert Addresses(st.segs)[0..] == Addresses(st.segs) && st.segs[0..] == st.segs;
    FlatDirs(st.segs, st.dirs, st.files);
    FlatFiles(st.segs, st.dirs, st.files);
    HealthyTable(FilledDirs(st.segs), FilledFiles(st.segs), st.dirs, st.files, st.nextId);
    RescanAgrees(|st.disk|, st.used, st.segs, st.dirs, st.files);
    SmallIds(st, FilledDirs(st.segs), FilledFiles(st.segs));
    forall fuel: nat | WalkChain(st.disk, HEADER_SIZE, fuel).Some?
      ensures WalkChain(st.disk, HEADER_SIZE, fuel) == Some(Ok(t))
    {
      var last := |st.segs| - 1;
      if fuel <= last {
        WalkChainStable(st.disk, HEADER_SIZE, fuel, last);
      } else {
        WalkChainStable(st.disk, HEADER_SIZE, last, fuel);
      }
    }
  }

  lemma HeaderStored(disk: seq<Byte>, segs: Segs)
    requires OnDisk(disk, segs)
    ensures At(disk, 0, EncodeHeader(Header(One)))
  {
  }

  lemma SmallIds(st: State, ds: seq<Directory>, fs: seq<File>)
    requires TreeOk(st.dirs, st.files, st.nextId) && DirsOf(ds, st.dirs) && FilesOf(fs, st.files)
    ensures forall d :: d in ds ==> d.id < st.nextId
    ensures forall f :: f in fs ==> f.id < st.nextId
    ensures forall id :: id in st.dirs.Keys + st.files.Keys ==> id < st.nextId
  {
    hide NoRepeat;
    forall k
      ensures Lookup(st.dirs, st.files, k).Some? ==> k.n < st.nextId
    {
      assert Lookup(st.dirs, st.files, k).Some? ==> WellPlaced(st.dirs, Lookup(st.dirs, st.files, k).value, k, st.nextId);
    }
    assert forall id :: id in st.dirs ==> Lookup(st.dirs, st.files, DirId(id)).Some?;
    assert forall id :: id in st.files ==> Lookup(st.dirs, st.files, FileId(id)).Some?;
  }

  /** What is rebuilt is what was in memory; only the counter may fall back, to just above the largest identifier. */
  lemma ReopenRestores(st: State, st': State, sha3: Hash)
    requires Inv(st, sha3) && 0 < st.nextId
    requires Rebuilt(st', st.disk, Table(Addresses(st.segs), st.segs))
    ensures st' == st.(nextId := st'.nextId)
    ensures 0 < st'.nextId <= st.nextId && IsNextId(st.dirs.Keys + st.files.Keys, st'.nextId)
    ensures Inv(st', sha3)
  {
    hide Inv, OnDisk, SlotsMatch, TreeOk, Group, Layout, Tracks, DigestsMatch, MarkAll, FilledDirs, FilledFiles, DirsOf,
      FilesOf, DirMap, FileMap, Lists, TableShape;
    InvParts(st, sha3);
    FlatDirs(st.segs, st.dirs, st.files);
    FlatFiles(st.segs, st.dirs, st.files);
    MapsRebuilt(FilledDirs(st.segs), st.dirs, FilledFiles(st.segs), st.files);
    ListsGroup(st'.content, FilledDirs(st.segs), FilledFiles(st.segs), st.dirs, st.files, st.nextId);
    RescanAgrees(|st.disk|, st.used, st.segs, st.dirs, st.files);
    SmallIds(st, FilledDirs(st.segs), FilledFiles(st.segs));
    SmallerCounter(st, st'.nextId);
    InvOf(st', sha3);
  }

  lemma SmallerCounter(st: State, next: nat)
    requires TreeOk(st.dirs, st.files, st.nextId) && IsNextId(st.dirs.Keys + st.files.Keys, next)
    ensures TreeOk(st.dirs, st.files, next)
  {
    forall k | Lookup(st.dirs, st.files, k).Some?
      ensures WellPlaced(st.dirs, Lookup(st.dirs, st.files, k).value, k, next)
    {
      assert WellPlaced(st.dirs, Lookup(st.dirs, st.files, k).value, k, st.nextId);
      assert k.n in st.dirs.Keys + st.files.Keys;
    }
  }
}
