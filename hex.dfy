/** Hexadecimal text: `hexdigest()` / `binascii.hexlify` (two digits per byte, most significant
    first), `binascii.unhexlify`, and the zero-padded upper-case hex format (`0NX`) of a number. */
module Hex {
  import opened Bytes
  import opened Outcomes

  /** The digit for v, in lower or upper case. */
  function Digit(v: nat, upper: bool): (c: char)
    requires v < 16
    ensures DigitValue(c) == Some(v)
    ensures IsLowerDigit(c) <==> (!upper || v < 10)
  {
    if v < 10 then ('0' as int + v) as char
    else if upper then ('A' as int + v - 10) as char
    else ('a' as int + v - 10) as char
  }

  predicate IsLowerDigit(c: char) { '0' <= c <= '9' || 'a' <= c <= 'f' }

  predicate IsUpperDigit(c: char) { '0' <= c <= '9' || 'A' <= c <= 'F' }

  /** The value of a hex digit of either case, as `unhexlify` reads it. */
  function DigitValue(c: char): (r: Option<nat>)
    ensures r.Some? <==> IsLowerDigit(c) || IsUpperDigit(c)
    ensures r.Some? ==> r.value < 16
  {
    if '0' <= c <= '9' then Some(c as int - '0' as int)
    else if 'a' <= c <= 'f' then Some(c as int - 'a' as int + 10)
    else if 'A' <= c <= 'F' then Some(c as int - 'A' as int + 10)
    else None
  }

  /** The two digits of one byte, high nibble first. */
  function ByteDigits(b: Byte, upper: bool): (r: string)
    ensures |r| == 2
  {
    [Digit(b as nat / 16, upper), Digit(b as nat % 16, upper)]
  }

  /** `hexlify(bytes)` (lower case, as `hexdigest()` gives) or `hexlify(bytes).upper()`. */
  function Encode(bytes: seq<Byte>, upper: bool): (r: string)
    ensures |r| == 2 * |bytes|
    ensures forall i :: 0 <= i < |r| ==> (if upper then IsUpperDigit(r[i]) else IsLowerDigit(r[i]))
  {
    if bytes == [] then [] else ByteDigits(bytes[0], upper) + Encode(bytes[1..], upper)
  }

  /** `binascii.unhexlify(text)`: None for an odd length or a character that is not a digit. */
  function Decode(text: string): (r: Option<seq<Byte>>)
    ensures r.Some? <==> |text| % 2 == 0 && forall i :: 0 <= i < |text| ==> DigitValue(text[i]).Some?
    ensures r.Some? ==> |r.value| == |text| / 2
    decreases |text|
  {
    if |text| == 0 then Some([])
    else if |text| == 1 then None
    else
      var hi := DigitValue(text[0]);
      var lo := DigitValue(text[1]);
      var rest := Decode(text[2..]);
      assert forall i :: 2 <= i < |text| ==> text[i] == text[2..][i - 2];
      if hi.None? || lo.None? || rest.None? then None
      else Some([(16 * hi.value + lo.value) as Byte] + rest.value)
  }

  /** Decoding undoes encoding, in either case. */
  lemma {:induction false} DecodeEncode(bytes: seq<Byte>, upper: bool)
    ensures Decode(Encode(bytes, upper)) == Some(bytes)
  {
    if bytes != [] {
      var text := Encode(bytes, upper);
      assert text[2..] == Encode(bytes[1..], upper);
      var b := bytes[0] as nat;
      assert text[0] == Digit(b / 16, upper) && text[1] == Digit(b % 16, upper);
      DecodeEncode(bytes[1..], upper);
      assert Decode(text) == Some([(16 * (b / 16) + b % 16) as Byte] + bytes[1..]);
      assert [bytes[0]] + bytes[1..] == bytes;
    }
  }

  /** Encoding works byte by byte, so it distributes over concatenation. */
  lemma {:induction false} EncodeAppend(a: seq<Byte>, b: seq<Byte>, upper: bool)
    ensures Encode(a + b, upper) == Encode(a, upper) + Encode(b, upper)
  {
    if a == [] {
      assert a + b == b;
    } else {
      assert (a + b)[1..] == a[1..] + b;
      EncodeAppend(a[1..], b, upper);
      assert (a + b)[0] == a[0];
    }
  }

  /** The digits of the bytes lo..hi are the characters 2lo..2hi of the encoding. */
  lemma EncodeSlice(bytes: seq<Byte>, lo: nat, hi: nat, upper: bool)
    requires lo <= hi <= |bytes|
    ensures Encode(bytes, upper)[2 * lo..2 * hi] == Encode(bytes[lo..hi], upper)
  {
    assert bytes == bytes[..lo] + bytes[lo..hi] + bytes[hi..];
    EncodeAppend(bytes[..lo] + bytes[lo..hi], bytes[hi..], upper);
    EncodeAppend(bytes[..lo], bytes[lo..hi], upper);
  }

  /** Text of upper-case digits is the upper-case encoding of what it decodes to. */
  lemma {:induction false} EncodeDecode(text: string)
    requires |text| % 2 == 0 && forall i :: 0 <= i < |text| ==> IsUpperDigit(text[i])
    ensures Decode(text).Some? && Encode(Decode(text).value, true) == text
    decreases |text|
  {
    if text != [] {
      var rest := text[2..];
      assert forall i :: 0 <= i < |rest| ==> rest[i] == text[i + 2];
      EncodeDecode(rest);
      var hi := DigitValue(text[0]).value;
      var lo := DigitValue(text[1]).value;
      var b := (16 * hi + lo) as Byte;
      assert Decode(text).value == [b] + Decode(rest).value;
      UpperDigitOf(text[0]);
      UpperDigitOf(text[1]);
      assert b as nat / 16 == hi && b as nat % 16 == lo;
      assert ([b] + Decode(rest).value)[1..] == Decode(rest).value;
    }
  }

  lemma UpperDigitOf(c: char)
    requires IsUpperDigit(c)
    ensures Digit(DigitValue(c).value, true) == c
  {
  }

  /** The upper-case digits of n without leading zeros (`'%X' % n`). */
  function Digits(n: nat): (r: string)
    ensures |r| >= 1
    ensures forall i :: 0 <= i < |r| ==> IsUpperDigit(r[i])
  {
    if n < 16 then [Digit(n, true)] else Digits(n / 16) + [Digit(n % 16, true)]
  }

  /** The format spec `0wX` applied to n: the digits of n, zero-padded on the left to width w. */
  function Format(n: nat, w: nat): (r: string)
    ensures |r| == if |Digits(n)| < w then w else |Digits(n)|
    ensures forall i :: 0 <= i < |r| ==> IsUpperDigit(r[i])
  {
    var d := Digits(n);
    if |d| < w then seq(w - |d|, _ => '0') + d else d
  }

  /** The number a string of digits stands for, most significant first; None for a
      character that is not a digit. */
  function Value(s: string): (r: Option<nat>)
    ensures r.Some? <==> forall i :: 0 <= i < |s| ==> DigitValue(s[i]).Some?
  {
    if s == [] then Some(0)
    else
      var front := Value(s[..|s| - 1]);
      var d := DigitValue(s[|s| - 1]);
      assert forall i :: 0 <= i < |s| - 1 ==> s[..|s| - 1][i] == s[i];
      if front.None? || d.None? then None else Some(16 * front.value + d.value)
  }

  function Pow16(w: nat): (r: nat)
    ensures r >= 1
  {
    if w == 0 then 1 else 16 * Pow16(w - 1)
  }

  /** The digits of n read back as n. */
  lemma {:induction false} ValueOfDigits(n: nat)
    ensures Value(Digits(n)) == Some(n)
  {
    if n >= 16 {
      var d := Digits(n);
      assert d[..|d| - 1] == Digits(n / 16);
      ValueOfDigits(n / 16);
    }
  }

  /** Leading zeros do not change the value. */
  lemma {:induction false} ValueOfPadded(k: nat, s: string)
    requires Value(s).Some?
    ensures Value(seq(k, _ => '0') + s) == Value(s)
    decreases |s|
  {
    var zeros: string := seq(k, _ => '0');
    if s == [] {
      ZerosValue(k);
      assert zeros + s == zeros;
    } else {
      var front := s[..|s| - 1];
      assert (zeros + s)[..|zeros + s| - 1] == zeros + front;
      assert forall i :: 0 <= i < |s| - 1 ==> front[i] == s[i];
      ValueOfPadded(k, front);
    }
  }

  lemma {:induction false} ZerosValue(k: nat)
    ensures Value(seq(k, _ => '0')) == Some(0)
  {
    if k > 0 {
      var zeros: string := seq(k, _ => '0');
      assert zeros[..k - 1] == seq(k - 1, _ => '0');
      ZerosValue(k - 1);
    }
  }

  /** A formatted number reads back as the number, whatever the padding. */
  lemma FormatValue(n: nat, w: nat)
    ensures Value(Format(n, w)) == Some(n)
  {
    ValueOfDigits(n);
    var d := Digits(n);
    if |d| < w {
      ValueOfPadded(w - |d|, d);
    }
  }

  /** Numbers below 16^w take at most w digits, so the format is exactly w wide. */
  lemma {:induction false} FormatWidth(n: nat, w: nat)
    requires w >= 1 && n < Pow16(w)
    ensures |Format(n, w)| == w
  {
    DigitsLength(n, w);
  }

  lemma {:induction false} DigitsLength(n: nat, w: nat)
    requires w >= 1 && n < Pow16(w)
    ensures |Digits(n)| <= w
  {
    if n >= 16 {
      assert w >= 2;
      assert n / 16 < Pow16(w - 1);
      DigitsLength(n / 16, w - 1);
    }
  }
}
