/** UTF-8 as Python's codec uses it: the well-formed byte sequences of RFC 3629, section 4
    (what `bytes.decode('utf-8')` accepts), and the encoding of RFC 3629, section 3 (what
    `str.encode()` produces). */
module Utf8 {
  import opened Bytes
  import opened Outcomes

  predicate Tail(b: Byte) { 0x80 <= b <= 0xBF }

  /** The length of the well-formed character at the front of s, or 0 if there is none. */
  function CharLength(s: seq<Byte>): (r: nat)
    ensures r <= 4 && r <= |s|
    ensures |s| == 0 ==> r == 0
  {
    if |s| == 0 then 0
    else
      var b0 := s[0];
      if b0 <= 0x7F then 1
      else if 0xC2 <= b0 <= 0xDF then
        if |s| >= 2 && Tail(s[1]) then 2 else 0
      else if 0xE0 <= b0 <= 0xEF then
        if |s| >= 3 && Tail(s[1]) && Tail(s[2])
           && (b0 != 0xE0 || s[1] >= 0xA0)
           && (b0 != 0xED || s[1] <= 0x9F)
        then 3 else 0
      else if 0xF0 <= b0 <= 0xF4 then
        if |s| >= 4 && Tail(s[1]) && Tail(s[2]) && Tail(s[3])
           && (b0 != 0xF0 || s[1] >= 0x90)
           && (b0 != 0xF4 || s[1] <= 0x8F)
        then 4 else 0
      else 0
  }

  /** UTF8-octets = *( UTF8-char ). */
  predicate Valid(s: seq<Byte>)
    decreases |s|
  {
    |s| == 0 || (CharLength(s) > 0 && Valid(s[CharLength(s)..]))
  }

  /** Every ASCII byte sequence is well-formed. */
  lemma {:induction false} AsciiIsValid(s: seq<Byte>)
    requires forall i :: 0 <= i < |s| ==> s[i] < 0x80
    ensures Valid(s)
    decreases |s|
  {
    if |s| > 0 {
      AsciiIsValid(s[1..]);
    }
  }

  /** Well-formed sequences concatenate. */
  lemma {:induction false} ConcatValid(a: seq<Byte>, b: seq<Byte>)
    requires Valid(a) && Valid(b)
    ensures Valid(a + b)
    decreases |a|
  {
    if |a| > 0 {
      var k := CharLength(a);
      assert (a + b)[..k] == a[..k];
      CharLengthPrefix(a, a + b);
      ConcatValid(a[k..], b);
      assert (a + b)[k..] == a[k..] + b;
    } else {
      assert a + b == b;
    }
  }

  /** The length of the first character only looks at its own bytes. */
  lemma CharLengthPrefix(a: seq<Byte>, s: seq<Byte>)
    requires CharLength(a) > 0 && a <= s
    ensures CharLength(s) == CharLength(a)
  {
  }

  /** The encoding of one Unicode scalar value. */
  function EncodeChar(c: char): (r: seq<Byte>)
    ensures 1 <= |r| <= 4
  {
    var v := c as int;
    if v < 0x80 then [v as Byte]
    else if v < 0x800 then [(0xC0 + v / 0x40) as Byte, (0x80 + v % 0x40) as Byte]
    else if v < 0x1_0000 then
      [(0xE0 + v / 0x1000) as Byte, (0x80 + (v / 0x40) % 0x40) as Byte, (0x80 + v % 0x40) as Byte]
    else
      [(0xF0 + v / 0x4_0000) as Byte, (0x80 + (v / 0x1000) % 0x40) as Byte,
       (0x80 + (v / 0x40) % 0x40) as Byte, (0x80 + v % 0x40) as Byte]
  }

  /** `str.encode()`. */
  function Encode(s: string): (r: seq<Byte>)
    ensures |r| >= |s|
  {
    if |s| == 0 then [] else EncodeChar(s[0]) + Encode(s[1..])
  }

  /** The encoding of a character is one well-formed character. */
  lemma EncodeCharValid(c: char)
    ensures CharLength(EncodeChar(c)) == |EncodeChar(c)|
    ensures Valid(EncodeChar(c))
  {
    var r := EncodeChar(c);
    assert CharLength(r) == |r|;
    assert r[|r|..] == [];
  }

  /** Every string encodes to well-formed UTF-8. */
  lemma {:induction false} EncodeValid(s: string)
    ensures Valid(Encode(s))
  {
    if |s| > 0 {
      EncodeValid(s[1..]);
      EncodeCharValid(s[0]);
      ConcatValid(EncodeChar(s[0]), Encode(s[1..]));
    }
  }

  /** ASCII text encodes byte for byte. */
  lemma {:induction false} EncodeAscii(s: string)
    requires forall i :: 0 <= i < |s| ==> s[i] as int < 0x80
    ensures |Encode(s)| == |s| && forall i :: 0 <= i < |s| ==> Encode(s)[i] as int == s[i] as int
  {
    if |s| > 0 {
      EncodeAscii(s[1..]);
      var e := Encode(s);
      forall i | 1 <= i < |s| ensures e[i] as int == s[i] as int {
        assert e[i] == Encode(s[1..])[i - 1];
      }
    }
  }

  /** The scalar value of the well-formed character at the front of s. */
  function DecodeChar(s: seq<Byte>): char
    requires CharLength(s) > 0
  {
    var k := CharLength(s);
    var b0 := s[0] as int;
    if k == 1 then b0 as char
    else if k == 2 then ((b0 - 0xC0) * 0x40 + (s[1] as int - 0x80)) as char
    else if k == 3 then
      ((b0 - 0xE0) * 0x1000 + (s[1] as int - 0x80) * 0x40 + (s[2] as int - 0x80)) as char
    else
      ((b0 - 0xF0) * 0x4_0000 + (s[1] as int - 0x80) * 0x1000 + (s[2] as int - 0x80) * 0x40
       + (s[3] as int - 0x80)) as char
  }

  /** `bytes.decode('utf-8')`; None stands for the UnicodeDecodeError. */
  function Decode(s: seq<Byte>): (r: Option<string>)
    ensures r.Some? <==> Valid(s)
    decreases |s|
  {
    if |s| == 0 then Some([])
    else
      var k := CharLength(s);
      if k == 0 then None
      else match Decode(s[k..])
        case None => None
        case Some(rest) => Some([DecodeChar(s)] + rest)
  }

  /** The character at the front of an encoding decodes to the encoded character. */
  lemma DecodeEncodedChar(c: char, rest: seq<Byte>)
    ensures CharLength(EncodeChar(c) + rest) == |EncodeChar(c)|
    ensures DecodeChar(EncodeChar(c) + rest) == c
  {
    var e := EncodeChar(c);
    var s := e + rest;
    EncodeCharValid(c);
    CharLengthPrefix(e, s);
    var v := c as int;
    assert s[0] == e[0];
    if |e| >= 2 { assert s[1] == e[1]; }
    if |e| >= 3 { assert s[2] == e[2]; assert v / 0x1000 == (v / 0x40) / 0x40; }
    if |e| == 4 {
      assert s[3] == e[3];
      assert v / 0x4_0000 == (v / 0x1000) / 0x40;
    }
  }

  /** Decoding undoes `str.encode()`. */
  lemma {:induction false} DecodeEncode(s: string)
    ensures Decode(Encode(s)) == Some(s)
  {
    if |s| > 0 {
      var e := EncodeChar(s[0]);
      var tail := Encode(s[1..]);
      DecodeEncodedChar(s[0], tail);
      assert (e + tail)[|e|..] == tail;
      DecodeEncode(s[1..]);
      assert [s[0]] + s[1..] == s;
    }
  }
}
