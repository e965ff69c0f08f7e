/**
 Strict UTF-8 as defined by section 4 of RFC 3629, the grammar Python's
 `bytes.decode('utf-8')` and `str.encode('utf-8')` follow: no overlong
 forms, no surrogate code points (U+D800..U+DFFF), nothing above U+10FFFF.
 Texts are `string`, whose `char`s are exactly the Unicode scalar values.
 */
module Utf8 {
  import opened Wrappers

  newtype byte = x: int | 0 <= x < 0x100

  predicate IsTail(b: byte) { 0x80 <= b <= 0xBF }

  /** Length of the UTF8-char (RFC 3629, section 4) that starts `s`, or 0 if `s` does not start with one. */
  function LeadLength(s: seq<byte>): (n: nat)
    ensures n <= 4 && n <= |s|
  {
    if |s| == 0 then 0
    else if s[0] <= 0x7F then 1
    else if 0xC2 <= s[0] <= 0xDF then
      if |s| >= 2 && IsTail(s[1]) then 2 else 0
    else if s[0] == 0xE0 then
      if |s| >= 3 && 0xA0 <= s[1] <= 0xBF && IsTail(s[2]) then 3 else 0
    else if 0xE1 <= s[0] <= 0xEC || 0xEE <= s[0] <= 0xEF then
      if |s| >= 3 && IsTail(s[1]) && IsTail(s[2]) then 3 else 0
    else if s[0] == 0xED then
      if |s| >= 3 && 0x80 <= s[1] <= 0x9F && IsTail(s[2]) then 3 else 0
    else if s[0] == 0xF0 then
      if |s| >= 4 && 0x90 <= s[1] <= 0xBF && IsTail(s[2]) && IsTail(s[3]) then 4 else 0
    else if 0xF1 <= s[0] <= 0xF3 then
      if |s| >= 4 && IsTail(s[1]) && IsTail(s[2]) && IsTail(s[3]) then 4 else 0
    else if s[0] == 0xF4 then
      if |s| >= 4 && 0x80 <= s[1] <= 0x8F && IsTail(s[2]) && IsTail(s[3]) then 4 else 0
    else 0
  }

  /** `u` is exactly one well-formed UTF8-char. */
  predicate IsCharSequence(u: seq<byte>) { |u| > 0 && LeadLength(u) == |u| }

  /** The code point a UTF8-char stands for; its length is the shortest that can hold it. */
  function CodePoint(u: seq<byte>): (v: int)
    requires IsCharSequence(u)
    ensures 0 <= v < 0xD800 || 0xE000 <= v < 0x11_0000
    ensures |u| == 1 <==> v < 0x80
    ensures |u| == 2 <==> 0x80 <= v < 0x800
    ensures |u| == 3 <==> 0x800 <= v < 0x1_0000
    ensures |u| == 4 <==> 0x1_0000 <= v
  {
    if |u| == 1 then u[0] as int
    else if |u| == 2 then (u[0] as int - 0xC0) * 0x40 + (u[1] as int - 0x80)
    else if |u| == 3 then (u[0] as int - 0xE0) * 0x1000 + (u[1] as int - 0x80) * 0x40 + (u[2] as int - 0x80)
    else (u[0] as int - 0xF0) * 0x4_0000 + (u[1] as int - 0x80) * 0x1000 + (u[2] as int - 0x80) * 0x40 + (u[3] as int - 0x80)
  }

  function DecodeChar(u: seq<byte>): char
    requires IsCharSequence(u)
  {
    CodePoint(u) as char
  }

  /** The strict decoder: `None` is Python's UnicodeDecodeError. */
  function Decode(s: seq<byte>): (r: Option<string>)
    ensures r.Some? ==> |r.value| <= |s|
    decreases |s|
  {
    if s == [] then Some([])
    else
      var n := LeadLength(s);
      if n == 0 then None
      else match Decode(s[n..])
        case None => None
        case Some(rest) => Some([DecodeChar(s[..n])] + rest)
  }

  /** The bytes decode strictly as UTF-8. */
  predicate Valid(s: seq<byte>) { Decode(s).Some? }

  /** The UTF-8 form of one scalar value; it decodes back to `c`. */
  function EncodeChar(c: char): (u: seq<byte>)
    ensures IsCharSequence(u) && DecodeChar(u) == c
  {
    var v := c as int;
    if v < 0x80 then [v as byte]
    else if v < 0x800 then
      EncodeTwo(v);
      [(0xC0 + v / 0x40) as byte, (0x80 + v % 0x40) as byte]
    else if v < 0x1_0000 then
      EncodeThree(v);
      [(0xE0 + v / 0x40 / 0x40) as byte, (0x80 + v / 0x40 % 0x40) as byte, (0x80 + v % 0x40) as byte]
    else
      EncodeFour(v);
      [(0xF0 + v / 0x40 / 0x40 / 0x40) as byte, (0x80 + v / 0x40 / 0x40 % 0x40) as byte,
       (0x80 + v / 0x40 % 0x40) as byte, (0x80 + v % 0x40) as byte]
  }

  lemma EncodeTwo(v: int)
    requires 0x80 <= v < 0x800
    ensures var u := [(0xC0 + v / 0x40) as byte, (0x80 + v % 0x40) as byte];
      IsCharSequence(u) && CodePoint(u) == v
  {
    var q, r := v / 0x40, v % 0x40;
    assert v == q * 0x40 + r && 0 <= r < 0x40;
  }

  lemma EncodeThree(v: int)
    requires 0x800 <= v < 0x1_0000 && !(0xD800 <= v < 0xE000)
    ensures var u := [(0xE0 + v / 0x40 / 0x40) as byte, (0x80 + v / 0x40 % 0x40) as byte, (0x80 + v % 0x40) as byte];
      IsCharSequence(u) && CodePoint(u) == v
  {
    var q, r := v / 0x40, v % 0x40;
    assert v == q * 0x40 + r && 0 <= r < 0x40;
    var a, b := q / 0x40, q % 0x40;
    assert q == a * 0x40 + b && 0 <= b < 0x40;
    assert v == a * 0x1000 + b * 0x40 + r;
  }

  lemma EncodeFour(v: int)
    requires 0x1_0000 <= v < 0x11_0000
    ensures var u := [(0xF0 + v / 0x40 / 0x40 / 0x40) as byte, (0x80 + v / 0x40 / 0x40 % 0x40) as byte,
                      (0x80 + v / 0x40 % 0x40) as byte, (0x80 + v % 0x40) as byte];
      IsCharSequence(u) && CodePoint(u) == v
  {
    var q, r := v / 0x40, v % 0x40;
    assert v == q * 0x40 + r && 0 <= r < 0x40;
    var p, b := q / 0x40, q % 0x40;
    assert q == p * 0x40 + b && 0 <= b < 0x40;
    var a, c := p / 0x40, p % 0x40;
    assert p == a * 0x40 + c && 0 <= c < 0x40;
    assert v == a * 0x4_0000 + c * 0x1000 + b * 0x40 + r;
  }

  /** `str.encode('utf-8')`: never adds a byte-order mark. */
  function Encode(text: string): (s: seq<byte>)
    ensures |text| <= |s| <= 4 * |text|
  {
    if text == [] then [] else EncodeChar(text[0]) + Encode(text[1..])
  }

  /** A UTF8-char is recognised by its own bytes, whatever follows it. */
  lemma LeadLengthOfChar(u: seq<byte>, rest: seq<byte>)
    requires IsCharSequence(u)
    ensures LeadLength(u + rest) == |u|
  {
    assert (u + rest)[..|u|] == u;
    assert forall k :: 0 <= k < |u| ==> (u + rest)[k] == u[k];
  }

  /** Every text survives a UTF-8 round trip. */
  lemma {:induction false} DecodeEncode(text: string)
    ensures Decode(Encode(text)) == Some(text)
  {
    if text != [] {
      var u, rest := EncodeChar(text[0]), Encode(text[1..]);
      assert Encode(text) == u + rest;
      LeadLengthOfChar(u, rest);
      assert (u + rest)[|u|..] == rest;
      assert (u + rest)[..|u|] == u;
      DecodeEncode(text[1..]);
      assert [text[0]] + text[1..] == text;
    }
  }

  /** Strict UTF-8 has one spelling per character: re-encoding a char gives back its bytes. */
  lemma EncodeDecodeChar(u: seq<byte>)
    requires IsCharSequence(u)
    ensures EncodeChar(DecodeChar(u)) == u
  {
    assert DecodeChar(u) as int == CodePoint(u);
    if |u| == 2 {
      DecodeTwo(u);
    } else if |u| == 3 {
      DecodeThree(u);
    } else if |u| == 4 {
      DecodeFour(u);
    }
  }

  lemma DecodeTwo(u: seq<byte>)
    requires IsCharSequence(u) && |u| == 2
    ensures var v := CodePoint(u);
      u == [(0xC0 + v / 0x40) as byte, (0x80 + v % 0x40) as byte]
  {
    var v := CodePoint(u);
    var a, r := u[0] as int - 0xC0, u[1] as int - 0x80;
    assert v == a * 0x40 + r && 0 <= r < 0x40;
    assert v / 0x40 == a && v % 0x40 == r;
  }

  lemma DecodeThree(u: seq<byte>)
    requires IsCharSequence(u) && |u| == 3
    ensures var v := CodePoint(u);
      u == [(0xE0 + v / 0x40 / 0x40) as byte, (0x80 + v / 0x40 % 0x40) as byte, (0x80 + v % 0x40) as byte]
  {
    var v := CodePoint(u);
    var a, b, r := u[0] as int - 0xE0, u[1] as int - 0x80, u[2] as int - 0x80;
    var q := a * 0x40 + b;
    assert v == q * 0x40 + r && 0 <= r < 0x40;
    assert v / 0x40 == q && v % 0x40 == r;
    assert q / 0x40 == a && q % 0x40 == b;
  }

  lemma DecodeFour(u: seq<byte>)
    requires IsCharSequence(u) && |u| == 4
    ensures var v := CodePoint(u);
      u == [(0xF0 + v / 0x40 / 0x40 / 0x40) as byte, (0x80 + v / 0x40 / 0x40 % 0x40) as byte,
            (0x80 + v / 0x40 % 0x40) as byte, (0x80 + v % 0x40) as byte]
  {
    var v := CodePoint(u);
    var a, c, b, r := u[0] as int - 0xF0, u[1] as int - 0x80, u[2] as int - 0x80, u[3] as int - 0x80;
    var p := a * 0x40 + c;
    var q := p * 0x40 + b;
    assert v == q * 0x40 + r && 0 <= r < 0x40;
    assert v / 0x40 == q && v % 0x40 == r;
    assert q / 0x40 == p && q % 0x40 == b;
    assert p / 0x40 == a && p % 0x40 == c;
  }

  /** Valid UTF-8 is exactly the encoding of what it decodes to, so decode-then-encode changes no byte. */
  lemma {:induction false} EncodeDecode(s: seq<byte>)
    requires Valid(s)
    ensures Encode(Decode(s).value) == s
  {
    if s != [] {
      var n := LeadLength(s);
      var u := s[..n];
      LeadLengthOfChar(u, s[n..]);
      assert u + s[n..] == s;
      EncodeDecodeChar(u);
      EncodeDecode(s[n..]);
      var text := Decode(s).value;
      assert text[0] == DecodeChar(u) && text[1..] == Decode(s[n..]).value;
    }
  }
}
