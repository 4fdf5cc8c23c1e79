/** Sorting under a strict order: the result depends on the elements alone, not on the order they came in. */
module Sorting {
  import opened Sequences

  /** Of two different members one comes before the other, and consistently so. */
  ghost predicate Orders<T(!new)>(before: (T, T) -> bool, members: set<T>) {
    && (forall x, y :: x in members && y in members && x != y ==> before(x, y) || before(y, x))
    && (forall x, y :: x in members && y in members && before(x, y) ==> !before(y, x))
    && (forall x, y, z :: x in members && y in members && z in members && before(x, y) && before(y, z) ==> before(x, z))
  }

  ghost predicate Ascending<T(!new)>(before: (T, T) -> bool, s: seq<T>) {
    forall i, j :: 0 <= i < j < |s| ==> before(s[i], s[j])
  }

  /** The members in order, each once. */
  ghost predicate InOrder<T(!new)>(before: (T, T) -> bool, members: set<T>, s: seq<T>) {
    && (forall x :: x in s <==> x in members)
    && Ascending(before, s)
  }

  function Insert<T(!new)>(before: (T, T) -> bool, s: seq<T>, x: T): (r: seq<T>)
    ensures forall y :: y in r <==> y == x || y in s
  {
    if s == [] || before(x, s[0]) then [x] + s else [s[0]] + Insert(before, s[1..], x)
  }

  lemma {:induction false} InsertAscending<T(!new)>(before: (T, T) -> bool, members: set<T>, s: seq<T>, x: T)
    requires Orders(before, members) && x in members && x !in s
    requires (forall y :: y in s ==> y in members) && Ascending(before, s)
    ensures Ascending(before, Insert(before, s, x))
    decreases |s|
  {
    if s != [] {
      assert s[0] in s && forall y :: y in s[1..] ==> y in s;
      if before(x, s[0]) {
        forall j | 0 < j < |s|
          ensures before(x, s[j])
        {
          assert s[j] in s && before(s[0], s[j]);
        }
      } else {
        InsertAscending(before, members, s[1..], x);
        var rest := Insert(before, s[1..], x);
        forall j | 0 <= j < |rest|
          ensures before(s[0], rest[j])
        {
          assert rest[j] in rest;
        }
      }
    }
  }

  lemma OrderExists<T(!new)>(before: (T, T) -> bool, all: set<T>, members: set<T>)
    requires Orders(before, all) && members <= all
    ensures exists s :: InOrder(before, members, s)
    decreases members
  {
    if members == {} {
      assert InOrder(before, members, []);
    } else {
      var x :| x in members;
      OrderExists(before, all, members - {x});
      var rest :| InOrder(before, members - {x}, rest);
      assert InOrder(before, members - {x}, rest);
      InsertAscending(before, all, rest, x);
      assert InOrder(before, members, Insert(before, rest, x));
    }
  }

  /** There is only one order. */
  lemma {:induction false} OrderUnique<T(!new)>(before: (T, T) -> bool, members: set<T>, a: seq<T>, b: seq<T>)
    requires Orders(before, members) && InOrder(before, members, a) && InOrder(before, members, b)
    ensures a == b
    decreases |a|
  {
    EmptyTogether(before, members, a);
    EmptyTogether(before, members, b);
    if a != [] {
      assert a[0] in b && b[0] in a;
      TailInOrder(before, members, a);
      TailInOrder(before, members, b);
      OrderUnique(before, members - {a[0]}, a[1..], b[1..]);
      assert a == [a[0]] + a[1..] && b == [b[0]] + b[1..];
    }
  }

  lemma EmptyTogether<T(!new)>(before: (T, T) -> bool, members: set<T>, s: seq<T>)
    requires InOrder(before, members, s)
    ensures s == [] <==> members == {}
  {
    if s != [] {
      assert s[0] in s;
    }
    if members != {} {
      var x :| x in members;
      assert x in s;
    }
  }

  lemma TailInOrder<T(!new)>(before: (T, T) -> bool, members: set<T>, s: seq<T>)
    requires Orders(before, members) && InOrder(before, members, s) && s != []
    ensures InOrder(before, members - {s[0]}, s[1..])
  {
    forall x
      ensures x in s[1..] <==> x in members - {s[0]}
    {
      assert s[0] in s;
      assert x in s <==> x == s[0] || x in s[1..];
      if x in s[1..] {
        var j :| 0 <= j < |s[1..]| && s[1..][j] == x;
        assert before(s[0], s[j + 1]);
      }
    }
  }

  lemma AscendingDistinct<T(!new)>(before: (T, T) -> bool, members: set<T>, s: seq<T>)
    requires Orders(before, members) && InOrder(before, members, s)
    ensures Distinct(s)
  {
    forall i, j | 0 <= i < j < |s|
      ensures s[i] != s[j]
    {
      assert s[i] in s && before(s[i], s[j]);
    }
  }

  ghost function Ordered<T(!new)>(before: (T, T) -> bool, members: set<T>): (s: seq<T>)
    requires Orders(before, members)
    ensures InOrder(before, members, s) && Distinct(s)
  {
    OrderExists(before, members, members);
    var s :| InOrder(before, members, s);
    AscendingDistinct(before, members, s);
    s
  }

  /** Sorts elements that came in any order. */
  method Sort<T(!new)>(list: seq<T>, before: (T, T) -> bool, ghost members: set<T>) returns (sorted: seq<T>)
    requires Orders(before, members) && Distinct(list) && forall x :: x in list <==> x in members
    ensures sorted == Ordered(before, members)
  {
    sorted := [];
    for i := 0 to |list|
      invariant forall x :: x in sorted <==> x in list[..i]
      invariant Ascending(before, sorted)
    {
      assert list[i] in list;
      assert list[..i + 1] == list[..i] + [list[i]];
      InsertAscending(before, members, sorted, list[i]);
      sorted := Insert(before, sorted, list[i]);
    }
    assert list[..|list|] == list;
    OrderUnique(before, members, sorted, Ordered(before, members));
  }
}
