/** Recomputing the allocator from the file table. */
module Rescans {
  import opened Wrappers
  import opened Entries
  import opened Segments
  import opened Headers
  import opened Coverages
  import opened FileTable
  import opened Layouts

  /** The filled slots, in order. */
  function Filled<T>(slots: seq<Option<T>>): seq<T> {
    if slots == [] then []
    else if slots[0].Some? then [slots[0].value] + Filled(slots[1..])
    else Filled(slots[1..])
  }

  function BlobZones(files: seq<File>): seq<Extent> {
    if files == [] then [] else [BlobExtent(files[0])] + BlobZones(files[1..])
  }

  /** The zones of the segments and of their files, in the order they are marked. */
  function TableZones(addrs: seq<nat>, segs: Segs): seq<Extent>
    requires |addrs| == |segs|
  {
    if segs == [] then []
    else
      [Extent(addrs[0], EncodedLen(segs[0]))] + BlobZones(Filled(segs[0].files)) + TableZones(addrs[1..], segs[1..])
  }

  /** Marks zones one after the other; `None` when an assertion of the allocator fails. */
  function MarkAll(used: seq<Extent>, zones: seq<Extent>): Option<seq<Extent>>
    decreases zones
  {
    if zones == [] then Some(used)
    else if !MarkingAllowed(used, zones[0].start, zones[0].len) then None
    else MarkAll(Marked(used, zones[0]), zones[1..])
  }

  function AllZones(addrs: seq<nat>, segs: Segs): seq<Extent>
    requires |addrs| == |segs|
  {
    [Extent(0, HEADER_SIZE)] + TableZones(addrs, segs)
  }

  /** Marks the blobs of one segment; `later` are the zones that are still to be marked after them. */
  method MarkBlobs(coverage: Coverage, files: seq<File>, ghost later: seq<Extent>)
    requires MarkAll(coverage.segments, BlobZones(files) + later).Some?
    modifies coverage`segments
    ensures MarkAll(coverage.segments, later) == old(MarkAll(coverage.segments, BlobZones(files) + later))
  {
    ghost var all := MarkAll(coverage.segments, BlobZones(files) + later);
    assert files[0..] == files;
    for j := 0 to |files|
      invariant MarkAll(coverage.segments, BlobZones(files[j..]) + later) == all
    {
      assert files[j..][1..] == files[j + 1..];
      ghost var rest := BlobZones(files[j..]) + later;
      assert rest[0] == BlobExtent(files[j]) && rest[1..] == BlobZones(files[j + 1..]) + later;
      coverage.MarkAsUsed(files[j].contentAddr, files[j].contentLen);
    }
    assert BlobZones(files[|files|..]) + later == later;
  }

  /** Marks the header, then every segment and the blobs of its files. */
  method ComputeCoverage(addrs: seq<nat>, segs: Segs, len: nat) returns (coverage: Coverage)
    requires |addrs| == |segs| && MarkAll([], AllZones(addrs, segs)).Some?
    ensures fresh(coverage) && coverage.len == len
    ensures MarkAll([], AllZones(addrs, segs)) == Some(coverage.segments)
  {
    hide TableZones, MarkingAllowed, EncodedLen, Filled, BlobZones;
    ghost var all := MarkAll([], AllZones(addrs, segs));
    coverage := new Coverage(len);
    assert AllZones(addrs, segs)[1..] == TableZones(addrs, segs);
    assert addrs[0..] == addrs && segs[0..] == segs;
    coverage.MarkAsUsed(0, HEADER_SIZE);
    for i := 0 to |segs|
      invariant fresh(coverage) && coverage.len == len
      invariant MarkAll(coverage.segments, TableZones(addrs[i..], segs[i..])) == all
    {
      var segment := segs[i];
      var files := Filled(segment.files);
      ghost var later := TableZones(addrs[i + 1..], segs[i + 1..]);
      ZonesFrom(addrs, segs, i);
      MarkFirst(coverage.segments, Extent(addrs[i], EncodedLen(segment)), BlobZones(files) + later);
      coverage.MarkAsUsed(addrs[i], EncodedLen(segment));
      MarkBlobs(coverage, files, later);
    }
    NoZones(addrs[|segs|..], segs[|segs|..]);
  }

  lemma ZonesFrom(addrs: seq<nat>, segs: Segs, i: nat)
    requires |addrs| == |segs| && i < |segs|
    ensures TableZones(addrs[i..], segs[i..]) ==
            [Extent(addrs[i], EncodedLen(segs[i]))] +
            (BlobZones(Filled(segs[i].files)) + TableZones(addrs[i + 1..], segs[i + 1..]))
  {
    hide EncodedLen, Filled, BlobZones;
    assert addrs[i..][1..] == addrs[i + 1..] && segs[i..][1..] == segs[i + 1..];
  }

  lemma NoZones(addrs: seq<nat>, segs: Segs)
    requires |addrs| == |segs| == 0
    ensures TableZones(addrs, segs) == []
  {
  }

  lemma MarkFirst(used: seq<Extent>, e: Extent, rest: seq<Extent>)
    ensures MarkAll(used, [e] + rest) ==
            if MarkingAllowed(used, e.start, e.len) then MarkAll(Marked(used, e), rest) else None
  {
    assert ([e] + rest)[1..] == rest;
  }

  ghost predicate PairwiseDisjoint(zones: seq<Extent>) {
    forall i, j :: 0 <= i < j < |zones| ==> Disjoint(zones[i], zones[j])
  }

  ghost predicate AllDisjoint(zones: seq<Extent>, used: seq<Extent>) {
    forall i :: 0 <= i < |zones| ==> DisjointFromAll(zones[i], used)
  }

  /** On zones that do not overlap no assertion fails, and the non-empty ones end up tracked. */
  lemma {:induction false} MarkAllDisjoint(used: seq<Extent>, zones: seq<Extent>)
    requires Packed(used) && PairwiseDisjoint(zones) && AllDisjoint(zones, used)
    ensures MarkAll(used, zones).Some?
    ensures var r := MarkAll(used, zones).value;
            Packed(r) && forall e :: e in r <==> e in used || (e in zones && e.len > 0)
    decreases |zones|
  {
    if zones != [] {
      var e, rest := zones[0], zones[1..];
      assert zones == [e] + rest;
      assert DisjointFromAll(e, used);
      if e.len > 0 {
        MarkingAllowedIffDisjoint(used, e.start, e.len);
        InsertPacked(used, e);
        InsertElements(used, e);
      }
      var used' := Marked(used, e);
      assert PairwiseDisjoint(rest) by {
        assert forall i :: 0 <= i < |rest| ==> rest[i] == zones[i + 1];
      }
      forall i | 0 <= i < |rest|
        ensures DisjointFromAll(rest[i], used')
      {
        assert rest[i] == zones[i + 1];
        forall j | 0 <= j < |used'|
          ensures Disjoint(rest[i], used'[j])
        {
          assert used'[j] in used';
          if used'[j] in used {
            var n :| 0 <= n < |used| && used[n] == used'[j];
            assert DisjointFromAll(zones[i + 1], used);
          } else {
            assert Disjoint(zones[0], zones[i + 1]);
          }
        }
      }
      MarkAllDisjoint(used', rest);
    }
  }
}
