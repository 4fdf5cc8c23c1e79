/** Sequences turned round, and sequences without repetition. */
module Sequences {
  function Reversed<T>(s: seq<T>): (r: seq<T>)
    ensures |r| == |s|
  {
    if s == [] then [] else Reversed(s[1..]) + [s[0]]
  }

  lemma {:induction false} ReversedSnoc<T>(s: seq<T>, x: T)
    ensures Reversed(s + [x]) == [x] + Reversed(s)
  {
    if s == [] {
      assert [x][1..] == [];
    } else {
      assert (s + [x])[1..] == s[1..] + [x];
      ReversedSnoc(s[1..], x);
    }
  }

  /** Taking the last element off the reversed sequence takes the first one off the sequence. */
  lemma PopReversed<T>(s: seq<T>)
    ensures Reversed(s) == [] <==> s == []
    ensures s != [] ==> Reversed(s)[|s| - 1] == s[0] && Reversed(s)[..|s| - 1] == Reversed(s[1..])
  {
  }

  ghost predicate Distinct<T>(s: seq<T>) {
    forall i, j :: 0 <= i < j < |s| ==> s[i] != s[j]
  }

  lemma DistinctConcat<T>(a: seq<T>, b: seq<T>)
    requires Distinct(a) && Distinct(b) && forall x :: x in a ==> x !in b
    ensures Distinct(a + b)
  {
    forall i, j | 0 <= i < j < |a + b|
      ensures (a + b)[i] != (a + b)[j]
    {
      if i < |a| <= j {
        assert a[i] in a && b[j - |a|] in b;
      }
    }
  }

  lemma MoveFirst<T>(done: seq<T>, rest: seq<T>)
    ensures rest != [] ==> done + rest == done + [rest[0]] + rest[1..]
    ensures rest == [] ==> done + rest == done
  {
  }
}
