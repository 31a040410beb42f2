/** Base 64 encoding with the standard alphabet and `=` padding, section 4 of RFC 4648:
    `base64.b64encode(b).decode()` and the well-formed inputs of `base64.b64decode`. */
module Base64 {
  import opened Bytes
  import opened Outcomes

  /** The character for a 6-bit value (table 1 of RFC 4648). */
  function Char(v: nat): (c: char)
    requires v < 64
    ensures Index(c) == Some(v)
  {
    if v < 26 then ('A' as int + v) as char
    else if v < 52 then ('a' as int + v - 26) as char
    else if v < 62 then ('0' as int + v - 52) as char
    else if v == 62 then '+'
    else '/'
  }

  /** The 6-bit value of an alphabet character; None for anything else, `=` included. */
  function Index(c: char): (r: Option<nat>)
    ensures r.Some? ==> r.value < 64 && c != '='
  {
    if 'A' <= c <= 'Z' then Some(c as int - 'A' as int)
    else if 'a' <= c <= 'z' then Some(c as int - 'a' as int + 26)
    else if '0' <= c <= '9' then Some(c as int - '0' as int + 52)
    else if c == '+' then Some(62)
    else if c == '/' then Some(63)
    else None
  }

  /** Three bytes as four characters. */
  function Quantum(b0: Byte, b1: Byte, b2: Byte): (r: string)
    ensures |r| == 4
  {
    var x0 := b0 as nat;
    var x1 := b1 as nat;
    var x2 := b2 as nat;
    [Char(x0 / 4), Char(x0 % 4 * 16 + x1 / 16), Char(x1 % 16 * 4 + x2 / 64), Char(x2 % 64)]
  }

  /** `base64.b64encode(bytes).decode()`: a final group of one or two bytes is padded. */
  function Encode(bytes: seq<Byte>): (r: string)
    ensures |r| == 4 * ((|bytes| + 2) / 3)
  {
    if |bytes| == 0 then []
    else if |bytes| == 1 then
      var x0 := bytes[0] as nat;
      [Char(x0 / 4), Char(x0 % 4 * 16), '=', '=']
    else if |bytes| == 2 then
      var x0 := bytes[0] as nat;
      var x1 := bytes[1] as nat;
      [Char(x0 / 4), Char(x0 % 4 * 16 + x1 / 16), Char(x1 % 16 * 4), '=']
    else Quantum(bytes[0], bytes[1], bytes[2]) + Encode(bytes[3..])
  }

  /** The bytes of one group of four characters: three for a full group, one for `xx==`,
      two for `xxx=`. Bits below the last whole byte are dropped, as `b64decode` does. */
  function DecodeGroup(g: string, last: bool): (r: Option<seq<Byte>>)
    requires |g| == 4
    ensures r.Some? ==> 1 <= |r.value| <= 3 && (!last ==> |r.value| == 3)
  {
    var v0, v1, v2, v3 := Index(g[0]), Index(g[1]), Index(g[2]), Index(g[3]);
    if v0.None? || v1.None? then None
    else
      var first := (v0.value * 4 + v1.value / 16) as Byte;
      if v2.Some? && v3.Some? then
        Some([first, (v1.value % 16 * 16 + v2.value / 4) as Byte, (v2.value % 4 * 64 + v3.value) as Byte])
      else if last && v2.Some? && g[3] == '=' then
        Some([first, (v1.value % 16 * 16 + v2.value / 4) as Byte])
      else if last && g[2] == '=' && g[3] == '=' then
        Some([first])
      else None
  }

  /** `base64.b64decode(text)` on canonical input: whole groups of four alphabet characters,
      with padding only in the last group. None stands for the binascii.Error. */
  function Decode(text: string): (r: Option<seq<Byte>>)
    ensures r.Some? ==> |text| % 4 == 0 && |r.value| <= 3 * |text| / 4
    decreases |text|
  {
    if |text| == 0 then Some([])
    else if |text| < 4 then None
    else
      var group := DecodeGroup(text[..4], |text| == 4);
      var rest := Decode(text[4..]);
      if group.None? || rest.None? then None else Some(group.value + rest.value)
  }

  /** Decoding undoes encoding. */
  lemma {:induction false} DecodeEncode(bytes: seq<Byte>)
    ensures Decode(Encode(bytes)) == Some(bytes)
    decreases |bytes|
  {
    if |bytes| == 1 {
      assert bytes == [bytes[0]];
      SingleDecodes(bytes[0]);
    } else if |bytes| == 2 {
      assert bytes == [bytes[0], bytes[1]];
      PairDecodes(bytes[0], bytes[1]);
    } else if |bytes| >= 3 {
      DecodeEncode(bytes[3..]);
      GroupsDecode(bytes);
    }
  }

  /** Three bytes or more: the first group decodes to the first three bytes, so the whole
      text decodes when the rest does. */
  lemma GroupsDecode(bytes: seq<Byte>)
    requires |bytes| >= 3 && Decode(Encode(bytes[3..])) == Some(bytes[3..])
    ensures Decode(Encode(bytes)) == Some(bytes)
  {
    var first := [bytes[0], bytes[1], bytes[2]];
    var group := Quantum(bytes[0], bytes[1], bytes[2]);
    var rest := Encode(bytes[3..]);
    QuantumDecodes(bytes[0], bytes[1], bytes[2], |group + rest| == 4);
    DecodeFirstGroup(group, rest);
    calc {
      Decode(Encode(bytes));
      { EncodeGroups(bytes); }
      Decode(group + rest);
      Some(first + bytes[3..]);
      { SplitThree(bytes); }
      Some(bytes);
    }
  }

  lemma SplitThree(bytes: seq<Byte>)
    requires |bytes| >= 3
    ensures [bytes[0], bytes[1], bytes[2]] + bytes[3..] == bytes
  {
  }

  lemma EncodeGroups(bytes: seq<Byte>)
    requires |bytes| >= 3
    ensures Encode(bytes) == Quantum(bytes[0], bytes[1], bytes[2]) + Encode(bytes[3..])
  {
  }

  /** A text decodes to its first group's bytes followed by the rest's. */
  lemma DecodeFirstGroup(group: string, rest: string)
    requires |group| == 4
    requires DecodeGroup(group, |group + rest| == 4).Some? && Decode(rest).Some?
    ensures Decode(group + rest) == Some(DecodeGroup(group, |group + rest| == 4).value + Decode(rest).value)
  {
    var text := group + rest;
    assert text[..4] == group && text[4..] == rest;
  }

  lemma SingleDecodes(b0: Byte)
    ensures Decode(Encode([b0])) == Some([b0])
  {
    var text := Encode([b0]);
    assert text[..4] == text && text[4..] == [];
    assert Decode(text) == Some([b0] + []);
    assert [b0] + [] == [b0];
  }

  lemma PairDecodes(b0: Byte, b1: Byte)
    ensures Decode(Encode([b0, b1])) == Some([b0, b1])
  {
    var text := Encode([b0, b1]);
    assert text[..4] == text && text[4..] == [];
    var x0 := b0 as nat;
    var x1 := b1 as nat;
    var s1 := x0 % 4 * 16 + x1 / 16;
    assert s1 / 16 == x0 % 4 && s1 % 16 == x1 / 16;
    assert (x1 % 16 * 4) / 4 == x1 % 16;
    assert DecodeGroup(text, true) == Some([b0, b1]);
    assert Decode(text) == Some([b0, b1] + []);
    assert [b0, b1] + [] == [b0, b1];
  }

  lemma QuantumDecodes(b0: Byte, b1: Byte, b2: Byte, last: bool)
    ensures DecodeGroup(Quantum(b0, b1, b2), last) == Some([b0, b1, b2])
  {
    var x0 := b0 as nat;
    var x1 := b1 as nat;
    var x2 := b2 as nat;
    var s1 := x0 % 4 * 16 + x1 / 16;
    var s2 := x1 % 16 * 4 + x2 / 64;
    assert s1 / 16 == x0 % 4 && s1 % 16 == x1 / 16;
    assert s2 / 4 == x1 % 16 && s2 % 4 == x2 / 64;
  }
}
