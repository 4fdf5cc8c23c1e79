/** The space allocator: which zones of the archive are used, and where the next blob can go. */
module Coverages {
  import opened Wrappers

  /** A zone of the archive. */
  datatype Extent = Extent(start: nat, len: nat) {
    function End(): nat {
      start + len
    }

    predicate Covers(addr: nat) {
      start <= addr < End()
    }
  }

  predicate Disjoint(a: Extent, b: Extent) {
    a.len == 0 || b.len == 0 || a.End() <= b.start || b.End() <= a.start
  }

  /** The order of the tracked zones: by start, then by length. */
  predicate Before(a: Extent, b: Extent) {
    a.start < b.start || (a.start == b.start && a.len < b.len)
  }

  /** Non-empty zones that follow each other without overlapping. */
  ghost predicate Packed(zones: seq<Extent>) {
    && (forall i :: 0 <= i < |zones| ==> zones[i].len > 0)
    && (forall i, j :: 0 <= i < j < |zones| ==> zones[i].End() <= zones[j].start)
  }

  ghost predicate Within(zones: seq<Extent>, len: nat) {
    forall i :: 0 <= i < |zones| ==> zones[i].End() <= len
  }

  ghost predicate DisjointFromAll(e: Extent, zones: seq<Extent>) {
    forall i :: 0 <= i < |zones| ==> Disjoint(e, zones[i])
  }

  ghost predicate Covered(zones: seq<Extent>, addr: nat) {
    exists i :: 0 <= i < |zones| && zones[i].Covers(addr)
  }

  function TotalLen(zones: seq<Extent>): nat {
    if zones == [] then 0 else zones[0].len + TotalLen(zones[1..])
  }

  // -- The ordered set of zones ------------------------------------------------------------------

  function Insert(zones: seq<Extent>, e: Extent): seq<Extent> {
    if zones == [] then [e]
    else if zones[0] == e then zones
    else if Before(e, zones[0]) then [e] + zones
    else [zones[0]] + Insert(zones[1..], e)
  }

  function Remove(zones: seq<Extent>, e: Extent): seq<Extent> {
    if zones == [] then []
    else if zones[0] == e then zones[1..]
    else [zones[0]] + Remove(zones[1..], e)
  }

  lemma {:induction false} InsertElements(zones: seq<Extent>, e: Extent)
    ensures forall x :: x in Insert(zones, e) <==> x in zones || x == e
  {
    if zones != [] {
      assert zones == [zones[0]] + zones[1..];
      InsertElements(zones[1..], e);
    }
  }

  /** Adding a zone that overlaps none keeps the zones packed. */
  lemma {:induction false} InsertPacked(zones: seq<Extent>, e: Extent)
    requires Packed(zones) && e.len > 0 && DisjointFromAll(e, zones)
    ensures Packed(Insert(zones, e))
    ensures |Insert(zones, e)| == |zones| + 1
  {
    if zones != [] {
      assert Disjoint(e, zones[0]);
      PackedTail(zones);
      var rest := zones[1..];
      if !Before(e, zones[0]) {
        assert forall i :: 0 <= i < |rest| ==> rest[i] == zones[i + 1];
        InsertPacked(rest, e);
        InsertElements(rest, e);
        PackedCons(zones[0], Insert(rest, e));
      } else {
        PackedCons(e, zones);
      }
    }
  }

  lemma PackedCons(e: Extent, zones: seq<Extent>)
    requires Packed(zones) && e.len > 0 && forall x :: x in zones ==> e.End() <= x.start
    ensures Packed([e] + zones)
  {
  }

  lemma {:induction false} RemovePacked(zones: seq<Extent>, e: Extent)
    requires Packed(zones)
    ensures Packed(Remove(zones, e))
    ensures forall x :: x in Remove(zones, e) <==> x in zones && x != e
  {
    if zones != [] {
      PackedTail(zones);
      var rest := zones[1..];
      if zones[0] != e {
        RemovePacked(rest, e);
        var all := [zones[0]] + Remove(rest, e);
        forall j | 1 <= j < |all|
          ensures zones[0].End() <= all[j].start
        {
          assert all[j] in Remove(rest, e);
        }
      }
    }
  }

  /** A set of zones has one packed listing at most. */
  lemma {:induction false} PackedUnique(a: seq<Extent>, b: seq<Extent>)
    requires Packed(a) && Packed(b)
    requires forall x :: x in a <==> x in b
    ensures a == b
  {
    HeadIsElement(a);
    HeadIsElement(b);
    if a != [] {
      PackedTail(a);
      PackedTail(b);
      PackedUnique(a[1..], b[1..]);
    }
  }

  lemma HeadIsElement(zones: seq<Extent>)
    ensures zones != [] ==> zones[0] in zones
  {
  }

  lemma PackedTail(zones: seq<Extent>)
    requires Packed(zones) && zones != []
    ensures Packed(zones[1..])
    ensures forall x :: x in zones <==> x == zones[0] || x in zones[1..]
    ensures zones[0] !in zones[1..]
    ensures forall x :: x in zones[1..] ==> zones[0].End() <= x.start
  {
    assert forall i :: 0 <= i < |zones| - 1 ==> zones[1..][i] == zones[i + 1];
    assert zones == [zones[0]] + zones[1..];
  }

  // -- Marking -----------------------------------------------------------------------------------

  /** The first zone that starts at `start` or before. */
  function FirstAtMost(zones: seq<Extent>, start: nat): Option<Extent> {
    if zones == [] then None
    else if zones[0].start <= start then Some(zones[0])
    else FirstAtMost(zones[1..], start)
  }

  /** The first zone that starts at `start` or after. */
  function FirstAtLeast(zones: seq<Extent>, start: nat): Option<Extent> {
    if zones == [] then None
    else if zones[0].start >= start then Some(zones[0])
    else FirstAtLeast(zones[1..], start)
  }

  /** The assertions that guard the marking of a zone as used. */
  predicate MarkingAllowed(zones: seq<Extent>, start: nat, len: nat) {
    var prev, next := FirstAtMost(zones, start), FirstAtLeast(zones, start);
    len > 0 ==>
      && (prev.Some? ==> prev.value.End() <= start)
      && (next.Some? ==> start + len <= next.value.start)
  }

  lemma {:induction false} FirstAtLeastIsNearest(zones: seq<Extent>, start: nat)
    requires Packed(zones)
    ensures var next := FirstAtLeast(zones, start);
            match next
            case None => forall i :: 0 <= i < |zones| ==> zones[i].start < start
            case Some(e) => exists i :: 0 <= i < |zones| && zones[i] == e && start <= e.start
                                        && forall j :: 0 <= j < i ==> zones[j].start < start
  {
    if zones != [] && zones[0].start < start {
      var rest := zones[1..];
      assert forall i :: 0 <= i < |rest| ==> rest[i] == zones[i + 1];
      FirstAtLeastIsNearest(rest, start);
      if FirstAtLeast(rest, start).Some? {
        var i :| 0 <= i < |rest| && rest[i] == FirstAtLeast(rest, start).value
                 && forall j :: 0 <= j < i ==> rest[j].start < start;
        assert zones[i + 1] == rest[i];
        forall j | 0 <= j < i + 1
          ensures zones[j].start < start
        {
          if j > 0 {
            assert zones[j] == rest[j - 1];
          }
        }
      } else {
        forall i | 0 <= i < |zones|
          ensures zones[i].start < start
        {
          if i > 0 {
            assert zones[i] == rest[i - 1];
          }
        }
      }
    }
  }

  lemma {:induction false} FirstAtMostIsFirst(zones: seq<Extent>, start: nat)
    requires Packed(zones)
    ensures FirstAtMost(zones, start) ==
            if zones != [] && zones[0].start <= start then Some(zones[0]) else None
  {
    if zones != [] && zones[0].start > start && |zones| > 1 {
      var rest := zones[1..];
      assert forall i :: 0 <= i < |rest| ==> rest[i] == zones[i + 1];
      FirstAtMostIsFirst(rest, start);
    }
  }

  /** The zone begins inside a tracked zone other than the first one. */
  ghost predicate StraddlesLater(zones: seq<Extent>, start: nat) {
    exists i :: 1 <= i < |zones| && zones[i].start < start < zones[i].End()
  }

  /** What the assertions catch: every overlap, except a start inside a zone that is not the first. */
  lemma MarkingAllowedIffDisjoint(zones: seq<Extent>, start: nat, len: nat)
    requires Packed(zones) && len > 0
    ensures DisjointFromAll(Extent(start, len), zones) <==>
            MarkingAllowed(zones, start, len) && !StraddlesLater(zones, start)
  {
    hide FirstAtMost, FirstAtLeast;
    FirstAtMostIsFirst(zones, start);
    FirstAtLeastIsNearest(zones, start);
    var e := Extent(start, len);
    if DisjointFromAll(e, zones) {
      assert forall i :: 0 <= i < |zones| ==> Disjoint(e, zones[i]);
    } else if MarkingAllowed(zones, start, len) {
      var i :| 0 <= i < |zones| && !Disjoint(e, zones[i]);
      var next := FirstAtLeast(zones, start);
      if next.Some? {
        var n :| 0 <= n < |zones| && zones[n] == next.value && start <= next.value.start
                 && forall j :: 0 <= j < n ==> zones[j].start < start;
        assert i < n;
      }
      assert zones[i].start < start < zones[i].End();
    }
  }

  /**
   * The assertions alone let an overlap through: behind a header and a segment with one slot of each kind, they accept
   * a blob that begins inside the segment, as only the first zone is compared on the left.
   */
  lemma AssertionsMissAnOverlap()
    ensures var zones := [Extent(0, 256), Extent(256, 624)];
            && Packed(zones) && MarkingAllowed(zones, 300, 10)
            && StraddlesLater(zones, 300) && !DisjointFromAll(Extent(300, 10), zones)
  {
    var zones := [Extent(0, 256), Extent(256, 624)];
    assert FirstAtLeast(zones, 300) == FirstAtLeast(zones[1..], 300) == FirstAtLeast(zones[1..][1..], 300);
    assert !Disjoint(Extent(300, 10), zones[1]);
  }

  // -- Free zones --------------------------------------------------------------------------------

  /** The free zones from `from` up to `len`, given the used zones that remain. */
  function FreeZones(zones: seq<Extent>, from: nat, len: nat): seq<Extent> {
    if zones == [] then
      if from < len then [Extent(from, len - from)] else []
    else if zones[0].start <= from then
      FreeZones(zones[1..], from + zones[0].len, len)
    else
      [Extent(from, zones[0].start - from)] + FreeZones(zones[1..], zones[0].End(), len)
  }

  /** The used zones that remain all start at `from` or after. */
  ghost predicate Ready(zones: seq<Extent>, from: nat) {
    Packed(zones) && forall i :: 0 <= i < |zones| ==> from <= zones[i].start
  }

  lemma ReadyNext(zones: seq<Extent>, from: nat)
    requires Ready(zones, from) && zones != []
    ensures Ready(zones[1..], zones[0].End())
    ensures forall i :: 0 <= i < |zones| - 1 ==> zones[1..][i] == zones[i + 1]
  {
  }

  ghost predicate Spread(free: seq<Extent>, from: nat, len: nat) {
    && (forall i :: 0 <= i < |free| ==> free[i].len > 0 && from <= free[i].start && free[i].End() <= len)
    && (forall i, j :: 0 <= i < j < |free| ==> free[i].End() < free[j].start)
  }

  /** Free zones are non-empty, in order, never adjacent, and inside `[from, len)`. */
  lemma {:induction false} FreeZonesOrdered(zones: seq<Extent>, from: nat, len: nat)
    requires Ready(zones, from) && Within(zones, len)
    ensures Spread(FreeZones(zones, from, len), from, len)
  {
    if zones == [] {
      assert FreeZones(zones, from, len) == if from < len then [Extent(from, len - from)] else [];
    } else {
      ReadyNext(zones, from);
      assert Within(zones[1..], len);
      FreeZonesOrdered(zones[1..], zones[0].End(), len);
      var later := FreeZones(zones[1..], zones[0].End(), len);
      assert FreeZones(zones, from, len) ==
             if zones[0].start == from then later else [Extent(from, zones[0].start - from)] + later;
    }
  }

  /** Every address is either used or free, never both. */
  lemma {:induction false} FreeZonesPartition(zones: seq<Extent>, from: nat, len: nat, addr: nat)
    requires Ready(zones, from) && Within(zones, len) && from <= addr < len
    ensures Covered(FreeZones(zones, from, len), addr) <==> !Covered(zones, addr)
  {
    var free := FreeZones(zones, from, len);
    if zones == [] {
      assert free[0].Covers(addr);
    } else {
      ReadyNext(zones, from);
      var rest := zones[1..];
      var end := zones[0].End();
      assert forall i :: 0 <= i < |rest| ==> rest[i] == zones[i + 1];
      var later := FreeZones(rest, end, len);
      FreeZonesOrdered(rest, end, len);
      if addr < end {
        assert !Covered(later, addr);
        assert zones[0].Covers(addr) <==> zones[0].start <= addr;
        if zones[0].start > addr {
          assert free[0].Covers(addr);
        } else if zones[0].start > from {
          assert free == [Extent(from, zones[0].start - from)] + later;
        }
      } else {
        FreeZonesPartition(rest, end, len, addr);
        CoveredTail(zones, addr);
        if zones[0].start > from {
          assert free[1..] == later;
          CoveredTail(free, addr);
        }
      }
    }
  }

  lemma CoveredTail(zones: seq<Extent>, addr: nat)
    requires zones != []
    ensures Covered(zones, addr) <==> zones[0].Covers(addr) || Covered(zones[1..], addr)
  {
    var rest := zones[1..];
    assert forall i :: 0 <= i < |rest| ==> rest[i] == zones[i + 1];
    if Covered(zones, addr) && !zones[0].Covers(addr) {
      var i :| 0 <= i < |zones| && zones[i].Covers(addr);
      assert rest[i - 1].Covers(addr);
    }
    if Covered(rest, addr) {
      var i :| 0 <= i < |rest| && rest[i].Covers(addr);
      assert zones[i + 1].Covers(addr);
    }
  }

  /** Free zones cannot be extended on either side: they are the maximal gaps. */
  lemma FreeZonesMaximal(zones: seq<Extent>, len: nat, free: Extent)
    requires Ready(zones, 0) && Within(zones, len) && free in FreeZones(zones, 0, len)
    ensures free.start == 0 || Covered(zones, free.start - 1)
    ensures free.End() == len || Covered(zones, free.End())
  {
    var all := FreeZones(zones, 0, len);
    FreeZonesOrdered(zones, 0, len);
    var i :| 0 <= i < |all| && all[i] == free;
    GapEnds(all, len, i);
    hide Ready, Within, FreeZones, Spread, Covered;
    if free.start > 0 {
      FreeZonesPartition(zones, 0, len, free.start - 1);
    }
    if free.End() < len {
      FreeZonesPartition(zones, 0, len, free.End());
    }
  }

  /** The addresses right before and right after one of several gaps are in none of them. */
  lemma GapEnds(all: seq<Extent>, len: nat, i: nat)
    requires Spread(all, 0, len) && i < |all|
    ensures all[i].End() <= len
    ensures all[i].start > 0 ==> !Covered(all, all[i].start - 1)
    ensures !Covered(all, all[i].End())
  {
  }

  /** Used and free zones add up to the whole archive. */
  lemma {:induction false} FreeZonesConserveSpace(zones: seq<Extent>, from: nat, len: nat)
    requires Ready(zones, from) && Within(zones, len) && from <= len
    ensures from + TotalLen(zones) + TotalLen(FreeZones(zones, from, len)) == len
  {
    if zones == [] {
      assert from < len ==> TotalLen([Extent(from, len - from)]) == len - from + TotalLen([]);
    } else {
      ReadyNext(zones, from);
      var end := zones[0].End();
      var rest := zones[1..];
      assert forall i :: 0 <= i < |rest| ==> rest[i] == zones[i + 1];
      FreeZonesConserveSpace(rest, end, len);
      if zones[0].start > from {
        assert FreeZones(zones, from, len)[1..] == FreeZones(rest, end, len);
      }
    }
  }

  /** A free zone overlaps no used zone. */
  lemma FreeZonesDisjoint(zones: seq<Extent>, len: nat, free: Extent)
    requires Ready(zones, 0) && Within(zones, len) && free in FreeZones(zones, 0, len)
    ensures DisjointFromAll(free, zones) && free.End() <= len
  {
    var all := FreeZones(zones, 0, len);
    FreeZonesOrdered(zones, 0, len);
    var k :| 0 <= k < |all| && all[k] == free;
    forall i | 0 <= i < |zones|
      ensures Disjoint(free, zones[i])
    {
      if !Disjoint(free, zones[i]) {
        var addr := if free.start >= zones[i].start then free.start else zones[i].start;
        assert zones[i].Covers(addr) && all[k].Covers(addr);
        FreeZonesPartition(zones, 0, len, addr);
        assert false;
      }
    }
  }

  /** The lowest address with nothing used at it or behind it. */
  ghost predicate IsEnd(zones: seq<Extent>, addr: nat) {
    && (forall i :: 0 <= i < |zones| ==> zones[i].End() <= addr)
    && (addr == 0 || exists i :: 0 <= i < |zones| && zones[i].End() == addr)
  }

  /** `best` is a smallest of the free zones that are large enough, the first one if there are several. */
  ghost predicate IsBestFit(free: seq<Extent>, capacity: nat, best: Option<Extent>) {
    match best
    case None => forall z :: z in free ==> z.len < capacity
    case Some(b) =>
      && b in free && b.len >= capacity
      && forall z :: z in free && z.len >= capacity ==> b.len < z.len || (b.len == z.len && b.start <= z.start)
  }

  /** Where `len` bytes go: into the best free zone, or behind everything if none is large enough. */
  ghost predicate IsBestPlace(used: seq<Extent>, size: nat, len: nat, addr: nat) {
    exists zone :: IsBestFit(FreeZones(used, 0, size), len, zone)
                   && if zone.Some? then addr == zone.value.start else IsEnd(used, addr)
  }

  /** A longest run of addresses that nothing covers. */
  ghost predicate IsGap(used: seq<Extent>, size: nat, e: Extent) {
    && e.len > 0 && e.End() <= size
    && (forall a: nat :: e.Covers(a) ==> !Covered(used, a))
    && (e.start == 0 || Covered(used, e.start - 1))
    && (e.End() == size || Covered(used, e.End()))
  }

  /** The free zones are the longest runs of free addresses, and all of them. */
  lemma FreeZonesAreGaps(used: seq<Extent>, size: nat, e: Extent)
    requires Ready(used, 0) && Within(used, size)
    ensures e in FreeZones(used, 0, size) <==> IsGap(used, size, e)
  {
    if e in FreeZones(used, 0, size) {
      FreeZoneIsGap(used, size, e);
    }
    if IsGap(used, size, e) {
      var all := FreeZones(used, 0, size);
      assert e.Covers(e.start);
      FreeZonesPartition(used, 0, size, e.start);
      var i :| 0 <= i < |all| && all[i].Covers(e.start);
      FreeZoneIsGap(used, size, all[i]);
      SameGap(used, size, e, all[i]);
    }
  }

  lemma FreeZoneIsGap(used: seq<Extent>, size: nat, e: Extent)
    requires Ready(used, 0) && Within(used, size) && e in FreeZones(used, 0, size)
    ensures IsGap(used, size, e)
  {
    FreeZonesOrdered(used, 0, size);
    FreeZonesMaximal(used, size, e);
    hide Ready, Within, FreeZones;
    var all := FreeZones(used, 0, size);
    var i :| 0 <= i < |all| && all[i] == e;
    forall a: nat | e.Covers(a)
      ensures !Covered(used, a)
    {
      FreeZonesPartition(used, 0, size, a);
      assert all[i].Covers(a);
    }
  }

  lemma SameGap(used: seq<Extent>, size: nat, e: Extent, f: Extent)
    requires IsGap(used, size, e) && IsGap(used, size, f) && f.Covers(e.start)
    ensures e == f
  {
    hide Covered;
    assert f.End() < e.End() ==> e.Covers(f.End());
    assert e.End() < f.End() ==> f.Covers(e.End());
  }

  /** The smallest gap that is large enough, the first one of that size. */
  ghost predicate IsBestGap(used: seq<Extent>, size: nat, len: nat, e: Extent) {
    && IsGap(used, size, e) && e.len >= len
    && forall f :: IsGap(used, size, f) && f.len >= len ==> e.len < f.len || (e.len == f.len && e.start <= f.start)
  }

  /** The best place is the start of the best gap, or the end of all that is used if no gap is large enough. */
  lemma BestPlaceMeans(used: seq<Extent>, size: nat, len: nat, addr: nat)
    requires Ready(used, 0) && Within(used, size)
    ensures IsBestPlace(used, size, len, addr) <==>
            if exists e :: IsGap(used, size, e) && e.len >= len
            then exists e :: IsBestGap(used, size, len, e) && e.start == addr
            else IsEnd(used, addr)
  {
    forall e
      ensures e in FreeZones(used, 0, size) <==> IsGap(used, size, e)
    {
      FreeZonesAreGaps(used, size, e);
    }
    hide Ready, Within, IsGap, FreeZones, IsEnd, Extent.Covers;
    if e :| IsBestGap(used, size, len, e) && e.start == addr {
      assert IsBestFit(FreeZones(used, 0, size), len, Some(e));
    }
    if !exists e :: IsGap(used, size, e) && e.len >= len {
      assert IsBestFit(FreeZones(used, 0, size), len, None);
    }
  }

  /** The best fit among one more free zone: the later zone wins only when it is strictly smaller. */
  lemma BestFitNext(free: seq<Extent>, k: nat, capacity: nat, best: Option<Extent>)
    requires k < |free| && IsBestFit(free[..k], capacity, best)
    requires exists len :: Spread(free, 0, len)
    ensures var zone := free[k];
            IsBestFit(free[..k] + [zone], capacity,
              if zone.len >= capacity && (best.None? || zone.len < best.value.len) then Some(zone) else best)
  {
    assert forall z :: z in free[..k] ==> z.start <= free[k].start;
  }

  lemma NextOf<T>(front: seq<T>, x: T, back: seq<T>)
    ensures var all := front + ([x] + back);
            all == (front + [x]) + back && all[..|front|] == front && all[|front|] == x
  {
  }

  lemma NoFit(capacity: nat)
    ensures IsBestFit([], capacity, None)
  {
  }

  // -- The allocator -----------------------------------------------------------------------------

  class Coverage {
    var len: nat
    var segments: seq<Extent>

    constructor (len: nat)
      ensures this.len == len && segments == []
    {
      this.len := len;
      segments := [];
    }

    method GrowTo(newLen: nat)
      requires newLen >= len
      modifies this`len
      ensures len == newLen
    {
      len := newLen;
    }

    /** Aborts unless the zone passes the comparisons with its neighbours. */
    method MarkAsUsed(start: nat, len: nat)
      requires MarkingAllowed(segments, start, len)
      modifies this`segments
      ensures segments == if len == 0 then old(segments) else Insert(old(segments), Extent(start, len))
    {
      if len == 0 {
        return;
      }
      var prev := FirstAtMost(segments, start);
      if prev.Some? {
        assert prev.value.start + prev.value.len <= start;
      }
      var next := FirstAtLeast(segments, start);
      if next.Some? {
        assert start + len <= next.value.start;
      }
      segments := Insert(segments, Extent(start, len));
    }

    /** Tells whether the zone was tracked, and stops tracking it. */
    method MarkAsFree(segment: Extent) returns (found: bool)
      modifies this`segments
      ensures found == (segment.len > 0 && segment in old(segments))
      ensures segments == if segment.len > 0 then Remove(old(segments), segment) else old(segments)
    {
      if segment.len > 0 {
        found := segment in segments;
        segments := Remove(segments, segment);
      } else {
        found := false;
      }
    }

    /** The smallest free zone of at least the given capacity. */
    method FindFreeZoneFor(capacity: nat) returns (best: Option<Extent>)
      requires Ready(segments, 0) && Within(segments, len)
      ensures IsBestFit(FreeZones(segments, 0, len), capacity, best)
    {
      hide IsBestFit, FreeZones, Ready, Within, Spread, Packed;
      var zones := new FreeSegmentsIter(this);
      ghost var all := FreeZones(segments, 0, len);
      ghost var seen: seq<Extent> := [];
      best := None;
      NoFit(capacity);
      FreeZonesOrdered(segments, 0, len);
      while true
        invariant fresh(zones) && zones.Valid() && zones.coverage == this
        invariant seen + zones.Remaining() == all
        invariant IsBestFit(seen, capacity, best)
        decreases |zones.Remaining()|
      {
        var zone := zones.Next();
        if zone.None? {
          assert seen == all;
          return;
        }
        NextOf(seen, zone.value, zones.Remaining());
        BestFitNext(all, |seen|, capacity, best);
        if zone.value.len >= capacity && (best.None? || zone.value.len < best.value.len) {
          best := Some(zone.value);
        }
        seen := seen + [zone.value];
      }
    }

    /** The address behind the last used zone. */
    function NextWritableAddr(): (addr: nat)
      reads this`segments
      ensures Packed(segments) ==> IsEnd(segments, addr)
    {
      if segments == [] then 0 else segments[|segments| - 1].End()
    }
  }

  /** Walks over the used zones and yields the gaps between them. */
  class FreeSegmentsIter {
    const coverage: Coverage
    var index: nat
    var prevEnd: nat
    var yieldedLast: bool

    ghost predicate Valid()
      reads this, coverage
    {
      && index <= |coverage.segments|
      && Ready(coverage.segments[index..], prevEnd)
    }

    /** The zones that are still to be yielded. */
    ghost function Remaining(): seq<Extent>
      requires Valid()
      reads this, coverage
    {
      if yieldedLast then [] else FreeZones(coverage.segments[index..], prevEnd, coverage.len)
    }

    constructor (coverage: Coverage)
      requires Ready(coverage.segments, 0)
      ensures Valid() && this.coverage == coverage
      ensures Remaining() == FreeZones(coverage.segments, 0, coverage.len)
    {
      this.coverage := coverage;
      index := 0;
      prevEnd := 0;
      yieldedLast := false;
      new;
      assert coverage.segments[0..] == coverage.segments;
    }

    method Next() returns (zone: Option<Extent>)
      requires Valid()
      modifies this
      ensures Valid()
      ensures zone.None? ==> old(Remaining()) == [] && Remaining() == []
      ensures zone.Some? ==> old(Remaining()) == [zone.value] + Remaining()
    {
      while true
        invariant Valid()
        invariant Remaining() == old(Remaining())
        decreases |coverage.segments| - index
      {
        if yieldedLast {
          return None;
        }
        ghost var rest := coverage.segments[index..];
        if index < |coverage.segments| {
          var segment := coverage.segments[index];
          ReadyNext(rest, prevEnd);
          assert rest[0] == segment;
          assert coverage.segments[index + 1..] == rest[1..];
          index := index + 1;
          if segment.start == prevEnd {
            prevEnd := prevEnd + segment.len;
            continue;
          }
          assert segment.start > prevEnd;
          var start := prevEnd;
          prevEnd := segment.start + segment.len;
          return Some(Extent(start, segment.start - start));
        } else {
          yieldedLast := true;
          if prevEnd < coverage.len {
            return Some(Extent(prevEnd, coverage.len - prevEnd));
          } else {
            return None;
          }
        }
      }
    }
  }
}
