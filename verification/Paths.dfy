/** Paths inside an archive: strings with slashes, normalised to lists of names. */
module Paths {
  import opened Wrappers
  import opened Bytes
  import opened Names

  type Utf8String = s: seq<Byte> | Utf8(s) witness []

  datatype PathError =
    | EmptyPath
    | InvalidComponent(path: Utf8String, component: seq<Byte>, err: NameValidationError)
    | RootEscape

  const PARENT: seq<Byte> := [DOT, DOT]

  // -- Splitting and joining ---------------------------------------------------------------------

  function FirstSlash(s: seq<Byte>): (i: nat)
    requires SLASH in s
    ensures i < |s| && s[i] == SLASH && SLASH !in s[..i]
  {
    if s[0] == SLASH then 0 else 1 + FirstSlash(s[1..])
  }

  /** The components between slashes: one more than there are slashes. */
  function Split(s: seq<Byte>): (parts: seq<seq<Byte>>)
    ensures |parts| > 0
    ensures forall part :: part in parts ==> SLASH !in part
  {
    if SLASH in s then [s[..FirstSlash(s)]] + Split(s[FirstSlash(s) + 1..]) else [s]
  }

  function Join(parts: seq<seq<Byte>>): seq<Byte> {
    if parts == [] then []
    else if |parts| == 1 then parts[0]
    else parts[0] + [SLASH] + Join(parts[1..])
  }

  lemma {:induction false} JoinOfSplit(s: seq<Byte>)
    ensures Join(Split(s)) == s
  {
    if SLASH in s {
      var i := FirstSlash(s);
      JoinOfSplit(s[i + 1..]);
      assert Split(s)[1..] == Split(s[i + 1..]);
      assert s == s[..i] + [SLASH] + s[i + 1..];
    }
  }

  lemma FirstSlashAfter(front: seq<Byte>, back: seq<Byte>)
    requires SLASH !in front
    ensures SLASH in front + [SLASH] + back && FirstSlash(front + [SLASH] + back) == |front|
  {
    var s := front + [SLASH] + back;
    assert s[|front|] == SLASH;
    var i := FirstSlash(s);
    assert forall k :: 0 <= k < |front| ==> s[k] == front[k];
    assert forall k :: 0 <= k < i ==> s[k] == s[..i][k];
  }

  lemma SplitFirst(front: seq<Byte>, back: seq<Byte>)
    requires SLASH !in front
    ensures Split(front + [SLASH] + back) == [front] + Split(back)
  {
    var s := front + [SLASH] + back;
    FirstSlashAfter(front, back);
    hide FirstSlash;
    assert s[..|front|] == front;
    assert s[|front| + 1..] == back;
  }

  lemma {:induction false} SplitOfJoin(parts: seq<seq<Byte>>)
    requires |parts| > 0 && forall part :: part in parts ==> SLASH !in part
    ensures Split(Join(parts)) == parts
  {
    if |parts| == 1 {
      assert SLASH !in parts[0];
    } else {
      SplitOfJoin(parts[1..]);
      SplitFirst(parts[0], Join(parts[1..]));
      hide Split;
      assert parts == [parts[0]] + parts[1..];
    }
  }

  lemma {:induction false} SplitUtf8(s: seq<Byte>)
    requires Utf8(s)
    ensures forall part :: part in Split(s) ==> Utf8(part)
  {
    if SLASH in s {
      var i := FirstSlash(s);
      assert s == s[..i] + [SLASH] + s[i + 1..];
      Utf8Split(s[..i], SLASH, s[i + 1..]);
      SplitUtf8(s[i + 1..]);
    }
  }

  lemma {:induction false} JoinSnoc(parts: seq<seq<Byte>>, last: seq<Byte>)
    ensures Join(parts + [last]) == if parts == [] then last else Join(parts) + [SLASH] + last
  {
    if parts == [] {
      assert parts + [last] == [last];
    } else {
      assert (parts + [last])[1..] == parts[1..] + [last];
      JoinSnoc(parts[1..], last);
      if |parts| > 1 {
        assert parts[0] + [SLASH] + (Join(parts[1..]) + [SLASH] + last) ==
               parts[0] + [SLASH] + Join(parts[1..]) + [SLASH] + last;
      }
    }
  }

  lemma {:induction false} JoinUtf8(names: seq<Name>)
    ensures Utf8(Join(names))
  {
    if |names| > 1 {
      JoinUtf8(names[1..]);
      assert [SLASH][1..] == [];
      Utf8Concat(names[0], [SLASH]);
      Utf8Concat(names[0] + [SLASH], Join(names[1..]));
    }
  }

  // -- Normalising -------------------------------------------------------------------------------

  predicate Skipped(part: seq<Byte>) {
    part == [] || part == [DOT]
  }

  /** A component that names an item: neither empty nor `.` nor `..`. */
  predicate Ordinary(part: seq<Byte>) {
    part != [] && part != [0x2E] && part != [0x2E, 0x2E]
  }

  /** The components left once the remaining ones have been applied to the stack. */
  function Normalize(path: Utf8String, stack: seq<Name>, parts: seq<seq<Byte>>): Result<seq<Name>, PathError>
    requires forall part :: part in parts ==> Utf8(part)
    decreases |parts|
  {
    if parts == [] then Ok(stack)
    else if Skipped(parts[0]) then Normalize(path, stack, parts[1..])
    else if parts[0] == PARENT then
      if stack == [] then Err(RootEscape) else Normalize(path, stack[..|stack| - 1], parts[1..])
    else
      match NewName(parts[0])
      case Err(error) => Err(InvalidComponent(path, parts[0], error))
      case Ok(name) => Normalize(path, stack + [name], parts[1..])
  }

  /** What parsing a string means. */
  function Parsed(path: Utf8String): Result<seq<Name>, PathError> {
    if path == [] then Err(EmptyPath)
    else
      SplitUtf8(path);
      Normalize(path, [], Split(path))
  }

  function Ordinaries(parts: seq<seq<Byte>>): nat {
    if parts == [] then 0 else (if Ordinary(parts[0]) then 1 else 0) + Ordinaries(parts[1..])
  }

  function Parents(parts: seq<seq<Byte>>): nat {
    if parts == [] then 0 else (if parts[0] == [0x2E, 0x2E] then 1 else 0) + Parents(parts[1..])
  }

  /** No prefix climbs higher than the directory that is `depth` levels above the start. */
  ghost predicate StaysInside(parts: seq<seq<Byte>>, depth: nat) {
    forall i :: 0 <= i <= |parts| ==> Parents(parts[..i]) <= depth + Ordinaries(parts[..i])
  }

  ghost predicate NamesValid(parts: seq<seq<Byte>>) {
    forall part :: part in parts && Ordinary(part) ==> ValidName(part)
  }

  lemma {:induction false} NormalizeSucceedsIff(path: Utf8String, stack: seq<Name>, parts: seq<seq<Byte>>)
    requires forall part :: part in parts ==> Utf8(part)
    ensures Normalize(path, stack, parts).Ok? <==> NamesValid(parts) && StaysInside(parts, |stack|)
    ensures Normalize(path, stack, parts).Ok? ==>
              |Normalize(path, stack, parts).value| + Parents(parts) == |stack| + Ordinaries(parts)
    decreases |parts|
  {
    if parts != [] {
      var part, rest := parts[0], parts[1..];
      InsideStep(parts, |stack|);
      assert NamesValid(parts) <==> (Ordinary(part) ==> ValidName(part)) && NamesValid(rest) by {
        assert forall p :: p in parts <==> p == part || p in rest;
      }
      if Skipped(part) {
        NormalizeSucceedsIff(path, stack, rest);
      } else if part == PARENT {
        if stack != [] {
          NormalizeSucceedsIff(path, stack[..|stack| - 1], rest);
        }
      } else if NewName(part).Ok? {
        NormalizeSucceedsIff(path, stack + [NewName(part).value], rest);
      }
    } else {
      assert StaysInside([], |stack|);
    }
  }

  lemma InsideStep(parts: seq<seq<Byte>>, depth: nat)
    requires parts != []
    ensures var after := depth + (if Ordinary(parts[0]) then 1 else 0) - (if parts[0] == PARENT then 1 else 0);
            StaysInside(parts, depth) <==> after >= 0 && StaysInside(parts[1..], after)
  {
    var after := depth + (if Ordinary(parts[0]) then 1 else 0) - (if parts[0] == PARENT then 1 else 0);
    forall i | 0 < i <= |parts|
      ensures Parents(parts[..i]) <= depth + Ordinaries(parts[..i]) <==>
              Parents(parts[1..][..i - 1]) <= after + Ordinaries(parts[1..][..i - 1])
    {
      assert parts[..i][0] == parts[0] && parts[..i][1..] == parts[1..][..i - 1];
    }
    if StaysInside(parts, depth) {
      assert Parents(parts[1..][..0]) == 0 && Ordinaries(parts[1..][..0]) == 0;
      assert Parents(parts[..1]) <= depth + Ordinaries(parts[..1]);
      assert after >= 0;
      forall j | 0 <= j <= |parts[1..]|
        ensures Parents(parts[1..][..j]) <= after + Ordinaries(parts[1..][..j])
      {
        assert Parents(parts[..j + 1]) <= depth + Ordinaries(parts[..j + 1]);
      }
    }
    if after >= 0 && StaysInside(parts[1..], after) {
      forall i | 0 <= i <= |parts|
        ensures Parents(parts[..i]) <= depth + Ordinaries(parts[..i])
      {
        if i > 0 {
          assert Parents(parts[1..][..i - 1]) <= after + Ordinaries(parts[1..][..i - 1]);
        }
      }
    }
  }

  /**
   * A path is accepted exactly if it is not empty, its components other than the empty one, `.` and `..` are names, and
   * no prefix has more `..` than names.
   */
  lemma AcceptedIff(path: Utf8String)
    ensures Parsed(path).Ok? <==>
            && path != []
            && (forall part :: part in Split(path) && part != [] && part != [0x2E] && part != [0x2E, 0x2E] ==>
                  ValidName(part))
            && (forall i :: 0 <= i <= |Split(path)| ==> Parents(Split(path)[..i]) <= Ordinaries(Split(path)[..i]))
    ensures Parsed(path).Ok? ==> |Parsed(path).value| == Ordinaries(Split(path)) - Parents(Split(path))
    ensures Parsed(path).Ok? ==>
              forall name :: name in Parsed(path).value ==>
                name in Split(path) && name != [] && name != [0x2E] && name != [0x2E, 0x2E] && SLASH !in name
  {
    if path != [] {
      SplitUtf8(path);
      NormalizeSucceedsIff(path, [], Split(path));
    }
    assert NamesValid(Split(path)) <==> forall part :: part in Split(path) && Ordinary(part) ==> ValidName(part);
    assert StaysInside(Split(path), 0) <==>
           forall i :: 0 <= i <= |Split(path)| ==> Parents(Split(path)[..i]) <= Ordinaries(Split(path)[..i]);
    if Parsed(path).Ok? {
      KeptFromParts(path, [], Split(path));
      forall name | name in Parsed(path).value
        ensures Ordinary(name) && SLASH !in name
      {
        ValidNameRules(name);
      }
    }
  }

  /** Every name of the result is on the stack or among the components. */
  lemma {:induction false} KeptFromParts(path: Utf8String, stack: seq<Name>, parts: seq<seq<Byte>>)
    requires forall part :: part in parts ==> Utf8(part)
    requires Normalize(path, stack, parts).Ok?
    ensures forall name :: name in Normalize(path, stack, parts).value ==> name in stack || name in parts
    decreases |parts|
  {
    if parts != [] {
      assert forall part :: part in parts[1..] ==> part in parts;
      if Skipped(parts[0]) {
        KeptFromParts(path, stack, parts[1..]);
      } else if parts[0] == PARENT {
        KeptFromParts(path, stack[..|stack| - 1], parts[1..]);
      } else {
        KeptFromParts(path, stack + [NewName(parts[0]).value], parts[1..]);
        assert parts[0] in parts;
      }
    }
  }

  /** The component that a path is refused for, and the error that says so. */
  ghost predicate RefusedFor(path: Utf8String, part: seq<Byte>, depth: int, error: PathError) {
    if part == [0x2E, 0x2E] then depth == 0 && error == RootEscape
    else
      && part != [] && part != [0x2E]
      && exists reason :: error == InvalidComponent(path, part, reason) && Refuses(part, reason)
  }

  /**
   * A path that is not accepted is refused for its first bad component: a `..` when the components before it are as
   * many names as `..`, or one that is no name.
   */
  lemma RefusedAtFirst(path: Utf8String)
    requires path != [] && Parsed(path).Err?
    ensures FailsFirst(path, Split(path), Parsed(path).error)
  {
    hide FailsFirst, Split, Normalize;
    SplitUtf8(path);
    FailsSomewhere(path, Split(path));
  }

  ghost predicate FailsFirst(path: Utf8String, parts: seq<seq<Byte>>, error: PathError) {
    exists i :: 0 <= i < |parts| && NamesValid(parts[..i]) && StaysInside(parts[..i], 0)
                && RefusedFor(path, parts[i], Ordinaries(parts[..i]) - Parents(parts[..i]), error)
  }

  lemma FailsSomewhere(path: Utf8String, parts: seq<seq<Byte>>)
    requires forall part :: part in parts ==> Utf8(part)
    requires Normalize(path, [], parts).Err?
    ensures FailsFirst(path, parts, Normalize(path, [], parts).error)
  {
    var i := FirstFailure(path, parts);
    assert forall part :: part in parts[..i] ==> part in parts;
    var names := Normalize(path, [], parts[..i]).value;
    NormalizeSucceedsIff(path, [], parts[..i]);
    hide NamesValid, StaysInside, RefusedFor, Normalize, Ordinaries, Parents;
    OneComponentFails(path, names, parts[i], Normalize(path, [], parts).error);
  }

  /** The first component at which normalising fails, with the error of the whole. */
  lemma {:induction false} FirstFailure(path: Utf8String, parts: seq<seq<Byte>>) returns (i: nat)
    requires forall part :: part in parts ==> Utf8(part)
    requires Normalize(path, [], parts).Err?
    ensures i < |parts| && Normalize(path, [], parts[..i]).Ok?
    ensures Utf8(parts[i]) && Normalize(path, Normalize(path, [], parts[..i]).value, [parts[i]]) == Normalize(path, [], parts)
    decreases |parts|
  {
    var n := |parts| - 1;
    var front, last := parts[..n], [parts[n]];
    assert parts == front + last && parts[n] in parts;
    assert forall part :: part in front ==> part in parts;
    NormalizeAppend(path, [], front, last);
    if Normalize(path, [], front).Ok? {
      i := n;
    } else {
      i := FirstFailure(path, front);
      assert front[..i] == parts[..i] && front[i] == parts[i];
    }
  }

  lemma OneComponentFails(path: Utf8String, names: seq<Name>, part: seq<Byte>, error: PathError)
    requires Utf8(part) && Normalize(path, names, [part]) == Err(error)
    ensures RefusedFor(path, part, |names|, error)
  {
    if part != PARENT {
      NewNameRefused(part);
    }
  }

  /** An empty component and `.` can be left out, wherever they stand. */
  lemma NothingSaid(path: Utf8String, front: seq<seq<Byte>>, part: seq<Byte>, back: seq<seq<Byte>>)
    requires part == [] || part == [0x2E]
    requires forall p :: p in front + back ==> Utf8(p)
    requires forall p :: p in front + [part] + back ==> Utf8(p)
    ensures Normalize(path, [], front + [part] + back) == Normalize(path, [], front + back)
  {
    assert forall p :: p in front ==> p in front + back;
    assert forall p :: p in back ==> p in front + back;
    assert forall p :: p in front + [part] ==> p in front + [part] + back;
    assert part in front + [part];
    NormalizeAppend(path, [], front, back);
    NormalizeAppend(path, [], front, [part]);
    NormalizeAppend(path, [], front + [part], back);
    if Normalize(path, [], front).Ok? {
      assert [part][1..] == [];
      assert Normalize(path, Normalize(path, [], front).value, [part]) == Normalize(path, [], front);
    }
  }

  /** Applying components one part after the other. */
  lemma {:induction false} NormalizeAppend(path: Utf8String, stack: seq<Name>, front: seq<seq<Byte>>, back: seq<seq<Byte>>)
    requires forall part :: part in front + back ==> Utf8(part)
    requires forall part :: part in front ==> Utf8(part)
    requires forall part :: part in back ==> Utf8(part)
    ensures Normalize(path, stack, front + back) ==
            match Normalize(path, stack, front)
            case Err(error) => Err(error)
            case Ok(names) => Normalize(path, names, back)
    decreases |front|
  {
    if front == [] {
      assert front + back == back;
    } else {
      assert (front + back)[0] == front[0] && (front + back)[1..] == front[1..] + back;
      assert forall part :: part in front[1..] + back ==> part in front + back;
      if Skipped(front[0]) {
        NormalizeAppend(path, stack, front[1..], back);
      } else if front[0] == PARENT {
        if stack != [] {
          NormalizeAppend(path, stack[..|stack| - 1], front[1..], back);
        }
      } else if NewName(front[0]).Ok? {
        NormalizeAppend(path, stack + [NewName(front[0]).value], front[1..], back);
      }
    }
  }

  /** A name followed by `..` cancels out, wherever the two stand. */
  lemma ParentCancels(path: Utf8String, front: seq<seq<Byte>>, name: Name, back: seq<seq<Byte>>)
    requires forall part :: part in front + back ==> Utf8(part)
    requires forall part :: part in front + [name, PARENT] + back ==> Utf8(part)
    ensures Normalize(path, [], front + [name, PARENT] + back) == Normalize(path, [], front + back)
  {
    var pair := [name, PARENT];
    ValidNameRules(name);
    assert forall part :: part in front ==> part in front + back;
    assert forall part :: part in back ==> part in front + back;
    assert forall part :: part in front + pair ==> part in front + pair + back;
    assert forall part :: part in pair ==> part in front + pair;
    NormalizeAppend(path, [], front, back);
    NormalizeAppend(path, [], front, pair);
    NormalizeAppend(path, [], front + pair, back);
    if Normalize(path, [], front).Ok? {
      PairCancels(path, Normalize(path, [], front).value, name);
    }
  }

  lemma PairCancels(path: Utf8String, stack: seq<Name>, name: Name)
    requires forall part :: part in [name, PARENT] ==> Utf8(part)
    ensures Normalize(path, stack, [name, PARENT]) == Ok(stack)
  {
    ValidNameRules(name);
    assert [name, PARENT][1..] == [PARENT] && [PARENT][1..] == [];
    assert (stack + [name])[..|stack|] == stack;
    assert Normalize(path, stack + [name], [PARENT]) == Ok(stack);
  }

  lemma {:induction false} NamesAreNormal(path: Utf8String, stack: seq<Name>, names: seq<Name>)
    ensures Normalize(path, stack, names) == Ok(stack + names)
    decreases |names|
  {
    if names == [] {
      assert stack + names == stack;
    } else {
      ValidNameRules(names[0]);
      NamesAreNormal(path, stack + [names[0]], names[1..]);
      assert stack + [names[0]] + names[1..] == stack + names;
    }
  }

  /** Parsing the display of a path gives the path again. */
  lemma PathRoundTrip(names: seq<Name>)
    requires names != []
    ensures Utf8(Join(names)) && Parsed(Join(names)) == Ok(names)
  {
    JoinUtf8(names);
    forall part | part in names
      ensures SLASH !in part
    {
      ValidNameRules(part);
    }
    SplitOfJoin(names);
    ValidNameRules(names[0]);
    assert |Join(names)| >= |names[0]|;
    NamesAreNormal(Join(names), [], names);
    assert [] + names == names;
  }

  // -- The path object ---------------------------------------------------------------------------

  class PathInArchive {
    var names: seq<Name>

    constructor Empty()
      ensures names == []
    {
      names := [];
    }

    /** Parses a string: resolves `.` and `..`, drops empty components, and refuses to climb above the root. */
    static method New(path: Utf8String) returns (r: Result<PathInArchive, PathError>)
      ensures r.Ok? <==> Parsed(path).Ok?
      ensures r.Err? ==> r.error == Parsed(path).error
      ensures r.Ok? ==> fresh(r.value) && r.value.names == Parsed(path).value
    {
      if path == [] {
        return Err(EmptyPath);
      }
      var out: seq<Name> := [];
      var parts := Split(path);
      SplitUtf8(path);
      assert parts[0..] == parts;
      for i := 0 to |parts|
        invariant Parsed(path) == Normalize(path, out, parts[i..])
      {
        var component := parts[i];
        assert parts[i..][0] == component && parts[i..][1..] == parts[i + 1..];
        if component == [] {
          continue;
        }
        if component == [DOT] {
        } else if component == PARENT {
          if out == [] {
            return Err(RootEscape);
          }
          out := out[..|out| - 1];
        } else {
          var name := NewName(component);
          if name.Err? {
            return Err(InvalidComponent(path, component, name.error));
          }
          out := out + [name.value];
        }
      }
      assert parts[|parts|..] == [];
      var result := new PathInArchive.Empty();
      result.names := out;
      r := Ok(result);
    }

    /** Takes the last component off. */
    method Pop() returns (last: Option<Name>)
      modifies this
      ensures old(names) == [] ==> last.None? && names == []
      ensures old(names) != [] ==> last.Some? && old(names) == names + [last.value]
    {
      if names == [] {
        return None;
      }
      last := Some(names[|names| - 1]);
      names := names[..|names| - 1];
    }

    method Append(component: Name)
      modifies this
      ensures names == old(names) + [component]
    {
      names := names + [component];
    }

    /** The components with slashes between them. */
    method Display() returns (s: Utf8String)
      ensures s == Join(names)
    {
      hide Utf8, ValidName;
      JoinUtf8(names);
      var out: seq<Byte> := [];
      assert names[..0] == [];
      for i := 0 to |names|
        invariant out == Join(names[..i])
      {
        JoinSnoc(names[..i], names[i]);
        assert names[..i + 1] == names[..i] + [names[i]];
        out := out + (if i == 0 then [] else [SLASH]) + names[i];
      }
      assert names[..|names|] == names;
      s := out;
    }
  }
}
