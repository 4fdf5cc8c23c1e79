/** Names of files and directories: well-formed UTF-8 strings, kept as their bytes. */
module Names {
  import opened Wrappers
  import opened Bytes

  const NAME_FIELD_SIZE := 256
  const SLASH: Byte := 0x2F
  const DOT: Byte := 0x2E

  // -- UTF-8 -------------------------------------------------------------------------------------

  predicate Between(s: seq<Byte>, k: nat, low: int, high: int) {
    k < |s| && low <= s[k] <= high
  }

  /** Width of the UTF-8 sequence that `s` starts with, by section 4 of RFC 3629; 0 if there is none. */
  function CharWidth(s: seq<Byte>): (width: nat)
    ensures width <= 4 && width <= |s|
    ensures forall k :: 1 <= k < width ==> 0x80 <= s[k] <= 0xBF
  {
    if |s| == 0 then 0
    else if s[0] <= 0x7F then 1
    else if 0xC2 <= s[0] <= 0xDF && Between(s, 1, 0x80, 0xBF) then 2
    else if s[0] == 0xE0 && Between(s, 1, 0xA0, 0xBF) && Between(s, 2, 0x80, 0xBF) then 3
    else if s[0] == 0xED && Between(s, 1, 0x80, 0x9F) && Between(s, 2, 0x80, 0xBF) then 3
    else if 0xE1 <= s[0] <= 0xEF && s[0] != 0xED
            && Between(s, 1, 0x80, 0xBF) && Between(s, 2, 0x80, 0xBF) then 3
    else if s[0] == 0xF0 && Between(s, 1, 0x90, 0xBF)
            && Between(s, 2, 0x80, 0xBF) && Between(s, 3, 0x80, 0xBF) then 4
    else if 0xF1 <= s[0] <= 0xF3 && Between(s, 1, 0x80, 0xBF)
            && Between(s, 2, 0x80, 0xBF) && Between(s, 3, 0x80, 0xBF) then 4
    else if s[0] == 0xF4 && Between(s, 1, 0x80, 0x8F)
            && Between(s, 2, 0x80, 0xBF) && Between(s, 3, 0x80, 0xBF) then 4
    else 0
  }

  predicate Utf8(s: seq<Byte>) {
    s == [] || (CharWidth(s) > 0 && Utf8(s[CharWidth(s)..]))
  }

  /** What follows a complete sequence does not change its width. */
  lemma CharWidthLocal(s: seq<Byte>, t: seq<Byte>)
    requires 0 < CharWidth(s)
    requires CharWidth(s) <= |t| && t[..CharWidth(s)] == s[..CharWidth(s)]
    ensures CharWidth(t) == CharWidth(s)
  {
    var w := CharWidth(s);
    assert forall k :: 0 <= k < w ==> t[k] == t[..w][k] == s[k];
  }

  lemma {:induction false} Utf8Concat(front: seq<Byte>, back: seq<Byte>)
    requires Utf8(front) && Utf8(back)
    ensures Utf8(front + back)
    decreases |front|
  {
    hide CharWidth;
    if front == [] {
      assert front + back == back;
    } else {
      var w := CharWidth(front);
      assert (front + back)[..w] == front[..w];
      CharWidthLocal(front, front + back);
      assert (front + back)[w..] == front[w..] + back;
      Utf8Concat(front[w..], back);
    }
  }

  /** No sequence goes on over an ASCII character. */
  lemma AsciiEndsChar(s: seq<Byte>, k: nat)
    requires 0 < k < |s| && s[k] < 0x80
    ensures CharWidth(s) <= k
  {
    hide CharWidth;
  }

  /** Cutting a string at an ASCII character leaves two strings. */
  lemma {:induction false} Utf8Split(front: seq<Byte>, ascii: Byte, back: seq<Byte>)
    requires ascii < 0x80 && Utf8(front + [ascii] + back)
    ensures Utf8(front) && Utf8(back)
    decreases |front|
  {
    var s := front + [ascii] + back;
    var w := CharWidth(s);
    if front == [] {
      assert s[1..] == back;
    } else {
      hide CharWidth;
      assert s[|front|] == ascii;
      AsciiEndsChar(s, |front|);
      assert front[..w] == s[..w];
      CharWidthLocal(s, front);
      assert s[w..] == front[w..] + [ascii] + back;
      Utf8Split(front[w..], ascii, back);
    }
  }

  // -- Validity ----------------------------------------------------------------------------------

  datatype NameValidationError =
    | NameIsEmpty
    | NameIsTooLong
    | ForbiddenName(name: seq<Byte>)
    | ForbiddenChar(c: Byte)

  /** Slash, backslash, line feed, carriage return and the null character, in the order they are looked for. */
  const FORBIDDEN: seq<Byte> := [0x2F, 0x5C, 0x0A, 0x0D, 0x00]

  function CheckValidity(name: seq<Byte>): Result<(), NameValidationError> {
    if name == [] then Err(NameIsEmpty)
    else if |name| > 255 then Err(NameIsTooLong)
    else if name == [DOT] || name == [DOT, DOT] then Err(ForbiddenName(name))
    else CheckChars(name, FORBIDDEN)
  }

  function CheckChars(name: seq<Byte>, forbidden: seq<Byte>): (r: Result<(), NameValidationError>)
    ensures r.Ok? <==> forall c :: c in forbidden ==> c !in name
    ensures r.Err? ==> r.error.ForbiddenChar? && r.error.c in forbidden && r.error.c in name
  {
    if forbidden == [] then Ok(())
    else if forbidden[0] in name then Err(ForbiddenChar(forbidden[0]))
    else CheckChars(name, forbidden[1..])
  }

  /** Why a string is no name: the first of the rules that it breaks. */
  predicate Refuses(name: seq<Byte>, error: NameValidationError) {
    match error
    case NameIsEmpty => name == []
    case NameIsTooLong => |name| > 255
    case ForbiddenName(reserved) => reserved == name && (name == [0x2E] || name == [0x2E, 0x2E])
    case ForbiddenChar(c) =>
      && 0 < |name| <= 255 && name != [0x2E] && name != [0x2E, 0x2E] && c in name
      && (c == 0x2F || (0x2F !in name
         && (c == 0x5C || (0x5C !in name
            && (c == 0x0A || (0x0A !in name
               && (c == 0x0D || (0x0D !in name && c == 0x00))))))))
  }

  lemma NewNameRefused(name: seq<Byte>)
    requires Utf8(name)
    ensures forall error :: NewName(name) == Err(error) <==> Refuses(name, error)
  {
    hide Utf8, CheckChars;
    CharsRefused(name);
  }

  lemma CharsRefused(name: seq<Byte>)
    ensures CheckChars(name, FORBIDDEN) ==
            if 0x2F in name then Err(ForbiddenChar(0x2F))
            else if 0x5C in name then Err(ForbiddenChar(0x5C))
            else if 0x0A in name then Err(ForbiddenChar(0x0A))
            else if 0x0D in name then Err(ForbiddenChar(0x0D))
            else if 0x00 in name then Err(ForbiddenChar(0x00))
            else Ok(())
  {
    hide CheckChars;
    var nul: seq<Byte> := [0x00];
    var cr, lf, backslash := [0x0D] + nul, [0x0A] + ([0x0D] + nul), [0x5C] + ([0x0A] + ([0x0D] + nul));
    assert FORBIDDEN == [0x2F] + backslash && nul == [0x00] + [];
    CheckCharsStep(name, 0x2F, backslash);
    CheckCharsStep(name, 0x5C, lf);
    CheckCharsStep(name, 0x0A, cr);
    CheckCharsStep(name, 0x0D, nul);
    CheckCharsStep(name, 0x00, []);
    NoChars(name);
  }

  lemma NoChars(name: seq<Byte>)
    ensures CheckChars(name, []) == Ok(())
  {
  }

  lemma CheckCharsStep(name: seq<Byte>, c: Byte, rest: seq<Byte>)
    ensures CheckChars(name, [c] + rest) == if c in name then Err(ForbiddenChar(c)) else CheckChars(name, rest)
  {
    assert ([c] + rest)[1..] == rest;
  }

  predicate ValidName(name: seq<Byte>) {
    Utf8(name) && CheckValidity(name).Ok?
  }

  type Name = name: seq<Byte> | ValidName(name) witness [0x61]

  function NewName(name: seq<Byte>): (r: Result<Name, NameValidationError>)
    requires Utf8(name)
    ensures r.Ok? <==> ValidName(name)
    ensures r.Ok? ==> r.value == name
  {
    var _ :- CheckValidity(name);
    Ok(name)
  }

  /** What makes a name valid: the rules of the format, without the order they are checked in. */
  lemma ValidNameRules(name: seq<Byte>)
    ensures CheckValidity(name).Ok? <==>
            && 1 <= |name| <= 255
            && name != [DOT] && name != [DOT, DOT]
            && SLASH !in name && 0x5C !in name && 0x0A !in name && 0x0D !in name && 0x00 !in name
  {
    if |name| > 0 && |name| <= 255 && name != [DOT] && name != [DOT, DOT] {
      assert FORBIDDEN[0] == SLASH && FORBIDDEN[1] == 0x5C && FORBIDDEN[2] == 0x0A
             && FORBIDDEN[3] == 0x0D && FORBIDDEN[4] == 0x00;
      assert forall c :: c in FORBIDDEN <==> c == SLASH || c == 0x5C || c == 0x0A || c == 0x0D || c == 0x00;
    }
  }

  // -- The 256-byte name field -------------------------------------------------------------------

  datatype NameDecodingError = InvalidUtf8 | NameValidationFailed(error: NameValidationError)

  function EncodeName(name: Name): (bytes: seq<Byte>)
    ensures |bytes| == NAME_FIELD_SIZE
  {
    ValidNameRules(name);
    [|name|] + name + Zeros(255 - |name|)
  }

  function DecodeName(bytes: seq<Byte>): Result<Name, NameDecodingError>
    requires |bytes| == NAME_FIELD_SIZE
  {
    var len := bytes[0];
    if len == 0 then Err(NameValidationFailed(NameIsEmpty))
    else
      var name := bytes[1..len + 1];
      if !Utf8(name) then Err(InvalidUtf8)
      else
        match NewName(name)
        case Ok(valid) => Ok(valid)
        case Err(error) => Err(NameValidationFailed(error))
  }

  /** Names survive the trip through their field. */
  lemma NameRoundTrip(name: Name)
    ensures DecodeName(EncodeName(name)) == Ok(name)
  {
    ValidNameRules(name);
    assert EncodeName(name)[1..|name| + 1] == name;
  }

  /** Decoding reads the length byte and the bytes it announces, and ignores the rest of the field. */
  lemma NamePaddingIgnored(bytes: seq<Byte>, other: seq<Byte>)
    requires |bytes| == |other| == NAME_FIELD_SIZE
    requires bytes[..bytes[0] + 1] == other[..bytes[0] + 1]
    ensures DecodeName(other) == DecodeName(bytes)
  {
    var len := bytes[0];
    assert other[0] == other[..len + 1][0] == bytes[..len + 1][0] == len;
    assert other[1..len + 1] == other[..len + 1][1..] == bytes[1..len + 1];
  }

  /** Fills a field in place: the length, then the bytes of the name. */
  method FillNameField(name: Name) returns (bytes: array<Byte>)
    ensures fresh(bytes) && bytes[..] == EncodeName(name)
  {
    ValidNameRules(name);
    bytes := new Byte[256](_ => 0);
    bytes[0] := |name|;
    forall k | 0 <= k < |name| {
      bytes[k + 1] := name[k];
    }
  }

  // -- Order -------------------------------------------------------------------------------------

  /** The order of strings: byte by byte, a proper prefix first. */
  predicate NameLeq(a: seq<Byte>, b: seq<Byte>) {
    a == [] || (b != [] && (a[0] < b[0] || (a[0] == b[0] && NameLeq(a[1..], b[1..]))))
  }

  ghost predicate IsPrefix(a: seq<Byte>, b: seq<Byte>) {
    |a| <= |b| && b[..|a|] == a
  }

  /** The first byte that differs is smaller in the first string. */
  ghost predicate SmallerAtDifference(a: seq<Byte>, b: seq<Byte>) {
    exists k :: 0 <= k < |a| && k < |b| && a[..k] == b[..k] && a[k] < b[k]
  }

  /** The comparison says what the order of strings is: a prefix is first, else the first difference decides. */
  lemma {:induction false} NameLeqMeans(a: seq<Byte>, b: seq<Byte>)
    ensures NameLeq(a, b) <==> IsPrefix(a, b) || SmallerAtDifference(a, b)
  {
    if a != [] && b != [] {
      SmallerLater(a, b);
      if a[0] == b[0] {
        NameLeqMeans(a[1..], b[1..]);
        PrefixLater(a, b);
      }
    }
  }

  lemma PrefixLater(a: seq<Byte>, b: seq<Byte>)
    requires a != [] && b != [] && a[0] == b[0]
    ensures IsPrefix(a, b) <==> IsPrefix(a[1..], b[1..])
  {
    assert a == [a[0]] + a[1..] && b == [b[0]] + b[1..];
    if IsPrefix(a[1..], b[1..]) {
      assert b[..|a|] == [b[0]] + b[1..][..|a| - 1];
    }
    if IsPrefix(a, b) {
      assert b[1..][..|a| - 1] == b[..|a|][1..];
    }
  }

  lemma SmallerLater(a: seq<Byte>, b: seq<Byte>)
    requires a != [] && b != []
    ensures SmallerAtDifference(a, b) <==> a[0] < b[0] || (a[0] == b[0] && SmallerAtDifference(a[1..], b[1..]))
  {
    if k :| 0 <= k < |a| && k < |b| && a[..k] == b[..k] && a[k] < b[k] {
      if k > 0 {
        SameStart(a, b, k);
        assert a[1..][k - 1] < b[1..][k - 1];
      }
    }
    if a[0] < b[0] {
      assert a[..0] == b[..0];
    }
    if k :| a[0] == b[0] && 0 <= k < |a[1..]| && k < |b[1..]| && a[1..][..k] == b[1..][..k] && a[1..][k] < b[1..][k] {
      SameStart(a, b, k + 1);
      assert a[k + 1] < b[k + 1];
    }
  }

  lemma SameStart(a: seq<Byte>, b: seq<Byte>, k: nat)
    requires 0 < k <= |a| && k <= |b|
    ensures a[..k] == b[..k] <==> a[0] == b[0] && a[1..][..k - 1] == b[1..][..k - 1]
  {
    assert a[..k] == [a[0]] + a[1..][..k - 1] && b[..k] == [b[0]] + b[1..][..k - 1];
    assert a[1..][..k - 1] == a[..k][1..] && b[1..][..k - 1] == b[..k][1..];
  }

  lemma {:induction false} NameLeqTotal(a: seq<Byte>, b: seq<Byte>)
    ensures NameLeq(a, b) || NameLeq(b, a)
  {
    if a != [] && b != [] {
      NameLeqTotal(a[1..], b[1..]);
    }
  }

  lemma {:induction false} NameLeqAntisymmetric(a: seq<Byte>, b: seq<Byte>)
    requires NameLeq(a, b) && NameLeq(b, a)
    ensures a == b
  {
    if a != [] && b != [] {
      NameLeqAntisymmetric(a[1..], b[1..]);
      assert a == [a[0]] + a[1..] && b == [b[0]] + b[1..];
    }
  }

  lemma {:induction false} NameLeqTransitive(a: seq<Byte>, b: seq<Byte>, c: seq<Byte>)
    requires NameLeq(a, b) && NameLeq(b, c)
    ensures NameLeq(a, c)
  {
    if a != [] && b != [] && c != [] && a[0] == b[0] == c[0] {
      NameLeqTransitive(a[1..], b[1..], c[1..]);
    }
  }
}
