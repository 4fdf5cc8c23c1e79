/** What the check for UTF-8 accepts: the encodings of texts, by section 3 of RFC 3629. */
module Texts {
  import opened Bytes
  import opened Names

  /** A Unicode scalar value. */
  type Scalar = c: int | 0 <= c <= 0x10_FFFF && !(0xD800 <= c <= 0xDFFF)

  function EncodeChar(c: Scalar): seq<Byte> {
    if c < 0x80 then [c]
    else if c < 0x800 then [0xC0 + c / 0x40, 0x80 + c % 0x40]
    else if c < 0x1_0000 then [0xE0 + c / 0x1000, 0x80 + c / 0x40 % 0x40, 0x80 + c % 0x40]
    else [0xF0 + c / 0x4_0000, 0x80 + c / 0x1000 % 0x40, 0x80 + c / 0x40 % 0x40, 0x80 + c % 0x40]
  }

  function EncodeText(text: seq<Scalar>): seq<Byte> {
    if text == [] then [] else EncodeChar(text[0]) + EncodeText(text[1..])
  }

  /** The character that a sequence of two, three or four bytes stands for. */
  lemma TwoBytes(lead: Byte, b: Byte) returns (c: Scalar)
    requires 0xC2 <= lead <= 0xDF && 0x80 <= b <= 0xBF
    ensures EncodeChar(c) == [lead, b]
  {
    c := (lead - 0xC0) * 0x40 + (b - 0x80);
  }

  lemma ThreeBytes(lead: Byte, b: Byte, b': Byte) returns (c: Scalar)
    requires 0xE0 <= lead <= 0xEF && 0x80 <= b <= 0xBF && 0x80 <= b' <= 0xBF
    requires (lead == 0xE0 ==> 0xA0 <= b) && (lead == 0xED ==> b <= 0x9F)
    ensures EncodeChar(c) == [lead, b, b']
  {
    c := (lead - 0xE0) * 0x1000 + (b - 0x80) * 0x40 + (b' - 0x80);
    assert c / 0x40 == (lead - 0xE0) * 0x40 + (b - 0x80);
  }

  lemma FourBytes(lead: Byte, b: Byte, b': Byte, b'': Byte) returns (c: Scalar)
    requires 0xF0 <= lead <= 0xF4 && 0x80 <= b <= 0xBF && 0x80 <= b' <= 0xBF && 0x80 <= b'' <= 0xBF
    requires (lead == 0xF0 ==> 0x90 <= b) && (lead == 0xF4 ==> b <= 0x8F)
    ensures EncodeChar(c) == [lead, b, b', b'']
  {
    c := (lead - 0xF0) * 0x4_0000 + (b - 0x80) * 0x1000 + (b' - 0x80) * 0x40 + (b'' - 0x80);
    assert c / 0x40 == (lead - 0xF0) * 0x1000 + (b - 0x80) * 0x40 + (b' - 0x80);
    assert c / 0x1000 == (lead - 0xF0) * 0x40 + (b - 0x80);
  }

  lemma FirstChar(s: seq<Byte>) returns (c: Scalar)
    requires CharWidth(s) > 0
    ensures EncodeChar(c) == s[..CharWidth(s)]
  {
    if s[0] <= 0x7F {
      c := s[0];
    } else if s[0] <= 0xDF {
      c := TwoBytes(s[0], s[1]);
    } else if s[0] <= 0xEF {
      c := ThreeBytes(s[0], s[1], s[2]);
    } else {
      c := FourBytes(s[0], s[1], s[2], s[3]);
    }
  }

  lemma WidthOfChar(c: Scalar, rest: seq<Byte>)
    ensures CharWidth(EncodeChar(c) + rest) == |EncodeChar(c)| > 0
  {
  }

  /** A byte string is accepted exactly if it is the encoding of a text. */
  lemma Utf8IffText(s: seq<Byte>)
    ensures Utf8(s) <==> exists text :: EncodeText(text) == s
  {
    if Utf8(s) {
      var text := TextOf(s);
    }
    if text :| EncodeText(text) == s {
      TextIsUtf8(text);
    }
  }

  lemma {:induction false} TextOf(s: seq<Byte>) returns (text: seq<Scalar>)
    requires Utf8(s)
    ensures EncodeText(text) == s
    decreases |s|
  {
    if s == [] {
      text := [];
    } else {
      var w := CharWidth(s);
      var c := FirstChar(s);
      var rest := TextOf(s[w..]);
      text := [c] + rest;
      assert text[1..] == rest && s == s[..w] + s[w..];
    }
  }

  lemma {:induction false} TextIsUtf8(text: seq<Scalar>)
    ensures Utf8(EncodeText(text))
  {
    if text != [] {
      var rest := EncodeText(text[1..]);
      TextIsUtf8(text[1..]);
      WidthOfChar(text[0], rest);
      assert (EncodeChar(text[0]) + rest)[|EncodeChar(text[0])|..] == rest;
    }
  }
}
