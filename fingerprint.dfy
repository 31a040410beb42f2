/** The receiver of fingerprintencryptor/fingerprint_encryptor.py: lines arrive byte by byte
    over a serial port, a template is sent as lines of hex digits between HEX_START and an end
    marker, and each template received is saved with a hex dump and byte statistics. The
    port is the finite sequence of bytes it will deliver; the point where it falls silent
    stands for every timeout. Saved files are records of their contents. */
module Fingerprint {
  import opened Bytes
  import opened Outcomes
  import Hex

  const LineFeed: Byte := 10

  /** `read(1).decode('utf-8', errors='ignore')`: an ASCII byte is its own character; any other
      byte is an incomplete UTF-8 sequence on its own and decodes to nothing. */
  function DecodeByte(b: Byte): (r: string)
    ensures |r| <= 1
    ensures r != [] <==> b < 0x80
    ensures r != [] ==> r[0] as int == b as int
  {
    if b < 0x80 then [(b as int) as char] else []
  }

  /** The line `read_line_with_timeout` builds from the bytes before a line feed: every
      decoded character except a carriage return is appended. */
  function Assemble(bytes: seq<Byte>): (line: string)
    ensures |line| <= |bytes|
  {
    if bytes == [] then []
    else
      var c := DecodeByte(bytes[|bytes| - 1]);
      Assemble(bytes[..|bytes| - 1]) + (if c == "\r" then [] else c)
  }

  /** One more byte adds its character, unless it is a carriage return or not ASCII. */
  lemma AssembleSnoc(bytes: seq<Byte>, b: Byte)
    ensures Assemble(bytes + [b]) == Assemble(bytes) + (if DecodeByte(b) == "\r" then [] else DecodeByte(b))
  {
    assert (bytes + [b])[..|bytes|] == bytes;
  }

  /** An assembled line is ASCII and holds no carriage return, and no line feed when the
      bytes hold none. */
  lemma {:induction false} AssembleChars(bytes: seq<Byte>)
    ensures forall i :: 0 <= i < |Assemble(bytes)| ==> Assemble(bytes)[i] as int < 0x80
    ensures "\r"[0] !in Assemble(bytes)
    ensures LineFeed !in bytes ==> "\n"[0] !in Assemble(bytes)
  {
    if bytes != [] {
      var front := bytes[..|bytes| - 1];
      AssembleChars(front);
      assert LineFeed !in bytes ==> LineFeed !in front;
    }
  }

  /** Assembly goes byte by byte, so it distributes over concatenation. */
  lemma {:induction false} AssembleAppend(a: seq<Byte>, b: seq<Byte>)
    ensures Assemble(a + b) == Assemble(a) + Assemble(b)
    decreases |b|
  {
    if b == [] {
      assert a + b == a;
    } else {
      var front := b[..|b| - 1];
      assert (a + b)[..|a + b| - 1] == a + front;
      AssembleAppend(a, front);
    }
  }

  /** Python's `str.isspace`, which `strip()` removes from both ends. */
  predicate IsSpace(c: char) {
    var x := c as int;
    || 0x09 <= x <= 0x0D || 0x1C <= x <= 0x20 || x == 0x85 || x == 0xA0 || x == 0x1680
    || 0x2000 <= x <= 0x200A || x == 0x2028 || x == 0x2029 || x == 0x202F || x == 0x205F || x == 0x3000
  }

  /** `s.lstrip()`: the suffix left after the leading whitespace. */
  function StripLeft(s: string): (r: string)
    ensures |r| <= |s| && r == s[|s| - |r|..]
    ensures forall i :: 0 <= i < |s| - |r| ==> IsSpace(s[i])
    ensures r == [] || !IsSpace(r[0])
  {
    if s != [] && IsSpace(s[0]) then
      var r := StripLeft(s[1..]);
      assert forall i :: 1 <= i < |s| - |r| ==> s[i] == s[1..][i - 1];
      r
    else s
  }

  /** `s.rstrip()`: the prefix left before the trailing whitespace. */
  function StripRight(s: string): (r: string)
    ensures |r| <= |s| && r == s[..|r|]
    ensures forall i :: |r| <= i < |s| ==> IsSpace(s[i])
    ensures r == [] || !IsSpace(r[|r| - 1])
  {
    if s != [] && IsSpace(s[|s| - 1]) then
      var r := StripRight(s[..|s| - 1]);
      assert forall i :: |r| <= i < |s| - 1 ==> s[i] == s[..|s| - 1][i];
      r
    else s
  }

  /** `s.strip()`: whitespace on neither end. */
  function Strip(s: string): (r: string)
    ensures |r| <= |s|
  {
    StripRight(StripLeft(s))
  }

  /** A stripped text starts and ends with a character that is not whitespace. */
  lemma StripEnds(s: string)
    ensures Strip(s) == [] || (!IsSpace(Strip(s)[0]) && !IsSpace(Strip(s)[|Strip(s)| - 1]))
  {
    var left := StripLeft(s);
    var r := StripRight(left);
    if r != [] {
      assert r[0] == left[0];
    }
  }

  /** The stripped text is a slice of s, and all that was cut off is whitespace. */
  lemma StripSlice(s: string) returns (lo: nat)
    ensures lo + |Strip(s)| <= |s| && Strip(s) == s[lo..lo + |Strip(s)|]
    ensures forall i :: 0 <= i < lo ==> IsSpace(s[i])
    ensures forall i :: lo + |Strip(s)| <= i < |s| ==> IsSpace(s[i])
  {
    var left := StripLeft(s);
    var r := Strip(s);
    lo := |s| - |left|;
    assert left == s[lo..];
    assert r == left[..|r|];
    forall i | lo + |r| <= i < |s|
      ensures IsSpace(s[i])
    {
      assert s[i] == left[i - lo];
    }
  }

  /** Stripping a stripped line changes nothing. */
  lemma StripIdempotent(s: string)
    ensures Strip(Strip(s)) == Strip(s)
  {
    var r := Strip(s);
    StripEnds(s);
    StripLeftKeeps(r);
    StripRightKeeps(r);
  }

  lemma StripLeftKeeps(s: string)
    requires s == [] || !IsSpace(s[0])
    ensures StripLeft(s) == s
  {
  }

  lemma StripRightKeeps(s: string)
    requires s == [] || !IsSpace(s[|s| - 1])
    ensures StripRight(s) == s
  {
  }

  /** `c.upper()` for an ASCII character; the lines received are ASCII. */
  function UpperChar(c: char): (u: char)
    ensures 'a' <= c <= 'z' ==> u as int == c as int - 32
    ensures !('a' <= c <= 'z') ==> u == c
  {
    if 'a' <= c <= 'z' then (c as int - 32) as char else c
  }

  /** `s.upper()`. */
  function Upper(s: string): (r: string)
    ensures |r| == |s| && forall i :: 0 <= i < |s| ==> r[i] == UpperChar(s[i])
  {
    seq(|s|, i requires 0 <= i < |s| => UpperChar(s[i]))
  }

  /** `''.join(c for c in line.upper() if c in '0123456789ABCDEF')`. */
  function Clean(line: string): (r: string)
    ensures |r| <= |line|
    ensures forall i :: 0 <= i < |r| ==> Hex.IsUpperDigit(r[i])
  {
    KeepDigits(Upper(line))
  }

  /** The characters of s that are upper-case hex digits, in order. */
  function KeepDigits(s: string): (r: string)
    ensures |r| <= |s|
    ensures forall i :: 0 <= i < |r| ==> Hex.IsUpperDigit(r[i])
  {
    if s == [] then []
    else (if Hex.IsUpperDigit(s[0]) then [s[0]] else []) + KeepDigits(s[1..])
  }

  /** Cleaning goes character by character: it distributes over concatenation, and one
      character is kept, upper-cased, exactly when it is a hex digit of either case. */
  lemma {:induction false} CleanAppend(a: string, b: string)
    ensures Clean(a + b) == Clean(a) + Clean(b)
  {
    assert Upper(a + b) == Upper(a) + Upper(b);
    KeepDigitsAppend(Upper(a), Upper(b));
  }

  lemma CleanChar(c: char)
    ensures Clean([c]) == if Hex.IsUpperDigit(UpperChar(c)) then [UpperChar(c)] else []
    ensures Clean([c]) != [] <==> Hex.IsUpperDigit(c) || Hex.IsLowerDigit(c)
  {
    assert Upper([c]) == [UpperChar(c)];
    assert KeepDigits([UpperChar(c)]) == (if Hex.IsUpperDigit(UpperChar(c)) then [UpperChar(c)] else []) + [];
  }

  lemma {:induction false} KeepDigitsAppend(a: string, b: string)
    ensures KeepDigits(a + b) == KeepDigits(a) + KeepDigits(b)
  {
    if a == [] {
      assert a + b == b;
    } else {
      assert (a + b)[1..] == a[1..] + b;
      KeepDigitsAppend(a[1..], b);
      assert (a + b)[0] == a[0];
    }
  }

  /** Text of upper-case hex digits is left as it is, so cleaning is idempotent. */
  lemma {:induction false} CleanDigits(s: string)
    requires forall i :: 0 <= i < |s| ==> Hex.IsUpperDigit(s[i])
    ensures Clean(s) == s
  {
    assert Upper(s) == s;
    KeepDigitsAll(s);
  }

  lemma {:induction false} KeepDigitsAll(s: string)
    requires forall i :: 0 <= i < |s| ==> Hex.IsUpperDigit(s[i])
    ensures KeepDigits(s) == s
  {
    if s != [] {
      assert forall i :: 0 <= i < |s[1..]| ==> s[1..][i] == s[i + 1];
      KeepDigitsAll(s[1..]);
      assert [s[0]] + s[1..] == s;
    }
  }

  lemma CleanIdempotent(line: string)
    ensures Clean(Clean(line)) == Clean(line)
  {
    CleanDigits(Clean(line));
  }

  /** `line.strip().upper() in ["HEX_END", "END"]`. */
  predicate IsEndMarker(line: string) {
    Upper(Strip(line)) in ["HEX_END", "END"]
  }

  /** `line.strip().upper() in ["HEX_START"]`. */
  predicate IsHexStart(line: string) {
    Upper(Strip(line)) == "HEX_START"
  }

  /** The position of the first x in s. */
  function FirstIndex(s: seq<Byte>, x: Byte): (k: nat)
    requires x in s
    ensures k < |s| && s[k] == x && x !in s[..k]
  {
    if s[0] == x then 0
    else
      var k := FirstIndex(s[1..], x);
      assert s[1..][..k] == s[1..k + 1];
      1 + k
  }

  /** What one `read_line_with_timeout` call returns and what it leaves unread: the stripped
      line before the first line feed, which it consumes; or None, once every byte has been
      read without a line feed, which stands for the timeout. */
  function NextLine(input: seq<Byte>): (r: (Option<string>, seq<Byte>))
    ensures |r.1| <= |input| && r.1 == input[|input| - |r.1|..]
    ensures r.0.Some? <==> LineFeed in input
    ensures r.0.None? ==> r.1 == []
    ensures r.0.Some? ==> |r.1| < |input|
  {
    if LineFeed in input then
      var k := FirstIndex(input, LineFeed);
      (Some(Strip(Assemble(input[..k]))), input[k + 1..])
    else (None, [])
  }

  /** The first line feed at k: the line is the stripped text of the bytes before it. */
  lemma NextLineAt(input: seq<Byte>, k: nat)
    requires k < |input| && input[k] == LineFeed && LineFeed !in input[..k]
    ensures NextLine(input) == (Some(Strip(Assemble(input[..k]))), input[k + 1..])
  {
  }

  /** A line handed out is stripped ASCII text with no line break in it. */
  lemma LineShape(input: seq<Byte>)
    requires NextLine(input).0.Some?
    ensures var line := NextLine(input).0.value;
      && Strip(line) == line
      && (forall i :: 0 <= i < |line| ==> line[i] as int < 0x80)
      && "\r"[0] !in line && "\n"[0] !in line
  {
    var k := FirstIndex(input, LineFeed);
    var assembled := Assemble(input[..k]);
    assert NextLine(input).0.value == Strip(assembled);
    AssembleChars(input[..k]);
    StripIdempotent(assembled);
    StrippedChars(assembled);
  }

  /** Strip only removes characters, so what holds of every character still holds. */
  lemma StrippedChars(s: string)
    requires forall i :: 0 <= i < |s| ==> s[i] as int < 0x80
    requires "\r"[0] !in s && "\n"[0] !in s
    ensures forall i :: 0 <= i < |Strip(s)| ==> Strip(s)[i] as int < 0x80
    ensures "\r"[0] !in Strip(s) && "\n"[0] !in Strip(s)
  {
    var lo := StripSlice(s);
    var line := Strip(s);
    forall i | 0 <= i < |line|
      ensures line[i] as int < 0x80 && line[i] != "\r"[0] && line[i] != "\n"[0]
    {
      assert line[i] == s[lo + i];
    }
  }

  /** Every complete line the bytes hold, in order. */
  function Lines(input: seq<Byte>): (lines: seq<string>)
    decreases |input|
  {
    var (line, rest) := NextLine(input);
    if line.None? then [] else [line.value] + Lines(rest)
  }

  /** The lines before the first one that `stop` holds of. */
  function TakeUntil(lines: seq<string>, stop: string -> bool): (r: seq<string>)
    ensures |r| <= |lines| && r == lines[..|r|]
  {
    if lines == [] || stop(lines[0]) then []
    else
      var rest := TakeUntil(lines[1..], stop);
      assert lines[1..][..|rest|] == lines[1..|rest| + 1];
      [lines[0]] + rest
  }

  /** No line taken is a stopping one, and the line after them, if any, is one. */
  lemma {:induction false} TakeUntilStops(lines: seq<string>, stop: string -> bool)
    ensures var r := TakeUntil(lines, stop);
      && (forall i :: 0 <= i < |r| ==> !stop(r[i]))
      && (|r| < |lines| ==> stop(lines[|r|]))
  {
    if lines != [] && !stop(lines[0]) {
      var rest := TakeUntil(lines[1..], stop);
      TakeUntilStops(lines[1..], stop);
      assert TakeUntil(lines, stop) == [lines[0]] + rest;
      assert forall i :: 1 <= i < |rest| + 1 ==> TakeUntil(lines, stop)[i] == rest[i - 1];
      assert |rest| < |lines| - 1 ==> lines[|rest| + 1] == lines[1..][|rest|];
    }
  }

  /** The lines before the first end marker. */
  function UntilEnd(lines: seq<string>): (r: seq<string>)
    ensures |r| <= |lines| && r == lines[..|r|]
  {
    TakeUntil(lines, IsEndMarker)
  }

  /** No line kept is an end marker, and the line after them, if any, is one. */
  lemma UntilEndMarker(lines: seq<string>)
    ensures var r := UntilEnd(lines);
      && (forall i :: 0 <= i < |r| ==> !IsEndMarker(r[i]))
      && (|r| < |lines| ==> IsEndMarker(lines[|r|]))
  {
    TakeUntilStops(lines, IsEndMarker);
  }

  /** The cleaned lines, joined. */
  function CleanAll(lines: seq<string>): (hex: string)
    ensures forall i :: 0 <= i < |hex| ==> Hex.IsUpperDigit(hex[i])
  {
    if lines == [] then [] else Clean(lines[0]) + CleanAll(lines[1..])
  }

  /** The hex text `receive_hex_template` gathers from the bytes `input`: the cleaned lines
      before the first end marker, joined. Reception ends at that marker or when the port
      falls silent. */
  function Gathered(input: seq<Byte>): (hex: string)
    ensures forall i :: 0 <= i < |hex| ==> Hex.IsUpperDigit(hex[i])
  {
    CleanAll(UntilEnd(Lines(input)))
  }

  /** The bytes left unread when reception ends: those after the end marker, or none. */
  function AfterEnd(input: seq<Byte>): (rest: seq<Byte>)
    ensures |rest| <= |input|
    decreases |input|
  {
    var next := NextLine(input);
    if next.0.None? then []
    else if IsEndMarker(next.0.value) then next.1
    else AfterEnd(next.1)
  }

  /** A line that is not an end marker adds its cleaned text and leaves the rest to come. */
  lemma GatherStep(input: seq<Byte>, line: string, rest: seq<Byte>)
    requires NextLine(input) == (Some(line), rest) && !IsEndMarker(line)
    ensures Gathered(input) == Clean(line) + Gathered(rest)
    ensures AfterEnd(input) == AfterEnd(rest)
  {
    var lines := Lines(input);
    assert lines == [line] + Lines(rest);
    assert lines[1..] == Lines(rest);
    assert UntilEnd(lines) == [line] + UntilEnd(Lines(rest));
  }

  /** At an end marker, or once the port is silent, nothing more is gathered. */
  lemma GatherStop(input: seq<Byte>)
    requires NextLine(input).0.None? || IsEndMarker(NextLine(input).0.value)
    ensures Gathered(input) == []
    ensures AfterEnd(input) == NextLine(input).1
  {
    var next := NextLine(input);
    if next.0.Some? {
      GatherAtEnd(input, next.0.value, next.1);
    } else {
      assert Lines(input) == [];
    }
  }

  lemma GatherAtEnd(input: seq<Byte>, line: string, rest: seq<Byte>)
    requires NextLine(input) == (Some(line), rest) && IsEndMarker(line)
    ensures Gathered(input) == []
  {
    assert Lines(input) == [line] + Lines(rest);
    assert UntilEnd(Lines(input)) == [];
  }

  /** One more line in the reception loop, with `hex` gathered from `input` so far. */
  lemma GatherMore(input: seq<Byte>, before: seq<Byte>, line: string, rest: seq<Byte>, hex: string)
    requires Gathered(input) == hex + Gathered(before) && AfterEnd(input) == AfterEnd(before)
    requires NextLine(before) == (Some(line), rest) && !IsEndMarker(line)
    ensures Gathered(input) == (if Clean(line) != [] then hex + Clean(line) else hex) + Gathered(rest)
    ensures AfterEnd(input) == AfterEnd(rest)
  {
    GatherStep(before, line, rest);
    Regroup(Gathered(input), hex, Clean(line), Gathered(before), Gathered(rest));
  }

  lemma Regroup(x: string, a: string, b: string, y: string, c: string)
    requires x == a + y && y == b + c
    ensures x == (if b != [] then a + b else a) + c
  {
    if b == [] {
      assert y == c;
    }
  }

  /** The end of the reception loop, with `hex` gathered from `input`. */
  lemma GatherDone(input: seq<Byte>, before: seq<Byte>, rest: seq<Byte>, hex: string)
    requires Gathered(input) == hex + Gathered(before) && AfterEnd(input) == AfterEnd(before)
    requires NextLine(before).1 == rest
    requires NextLine(before).0.None? || IsEndMarker(NextLine(before).0.value)
    ensures Gathered(input) == hex && AfterEnd(input) == rest
  {
    GatherStop(before);
    assert hex + [] == hex;
  }

  /** The end of `receive_hex_template`: fewer than 100 characters is too little, and
      otherwise `unhexlify` decides; None stands for both failures. */
  function Template(hex: string): Option<seq<Byte>> {
    if |hex| < 100 then None else Hex.Decode(hex)
  }

  /** From digits alone, a template comes back exactly when there are at least 100 of them and
      their number is even; it then has half as many bytes, so at least 50, and its upper-case
      encoding is the text received. */
  lemma TemplateShape(hex: string)
    requires forall i :: 0 <= i < |hex| ==> Hex.IsUpperDigit(hex[i])
    ensures Template(hex).Some? <==> |hex| >= 100 && |hex| % 2 == 0
    ensures Template(hex).Some? ==> |Template(hex).value| == |hex| / 2 >= 50
    ensures Template(hex).Some? ==> Hex.Encode(Template(hex).value, true) == hex
  {
    if |hex| >= 100 && |hex| % 2 == 0 {
      Hex.EncodeDecode(hex);
    }
  }

  /** Zero padding on the left, as the `0w` of a format spec gives. */
  function PadLeft(s: string, w: nat): (r: string)
    ensures |r| == if |s| < w then w else |s|
  {
    if |s| < w then seq(w - |s|, _ => '0') + s else s
  }

  /** The decimal digits of n without leading zeros. */
  function DecimalDigits(n: nat): (r: string)
    ensures |r| >= 1 && forall i :: 0 <= i < |r| ==> '0' <= r[i] <= '9'
  {
    if n < 10 then [('0' as int + n) as char] else DecimalDigits(n / 10) + [('0' as int + n % 10) as char]
  }

  /** The number a string of decimal digits stands for. */
  function DecimalValue(s: string): nat {
    if s == [] then 0 else 10 * DecimalValue(s[..|s| - 1]) + (s[|s| - 1] as int - '0' as int) % 10
  }

  /** `f"_{template_count:03d}"`. */
  function Suffix(count: nat): (r: string)
    ensures |r| >= 4 && r[0] == '_'
  {
    "_" + PadLeft(DecimalDigits(count), 3)
  }

  /** The suffix names its count: distinct counts give distinct suffixes. */
  lemma SuffixValue(count: nat)
    ensures DecimalValue(Suffix(count)[1..]) == count
  {
    var d := DecimalDigits(count);
    assert Suffix(count)[1..] == PadLeft(d, 3);
    DecimalOfDigits(count);
    if |d| < 3 {
      DecimalOfPadded(3 - |d|, d);
    }
  }

  lemma {:induction false} DecimalOfDigits(n: nat)
    ensures DecimalValue(DecimalDigits(n)) == n
  {
    if n >= 10 {
      var d := DecimalDigits(n);
      assert d[..|d| - 1] == DecimalDigits(n / 10);
      DecimalOfDigits(n / 10);
    }
  }

  lemma {:induction false} DecimalOfPadded(k: nat, s: string)
    ensures DecimalValue(seq(k, _ => '0') + s) == DecimalValue(s)
    decreases |s|
  {
    var zeros: string := seq(k, _ => '0');
    if s == [] {
      DecimalOfZeros(k);
      assert zeros + s == zeros;
    } else {
      assert (zeros + s)[..|zeros + s| - 1] == zeros + s[..|s| - 1];
      DecimalOfPadded(k, s[..|s| - 1]);
    }
  }

  lemma {:induction false} DecimalOfZeros(k: nat)
    ensures DecimalValue(seq(k, _ => '0')) == 0
  {
    if k > 0 {
      var zeros: string := seq(k, _ => '0');
      assert zeros[..k - 1] == seq(k - 1, _ => '0');
      DecimalOfZeros(k - 1);
    }
  }

  function Min(a: int, b: int): int {
    if a < b then a else b
  }

  /** `' '.join(line[j:j+2] for j in range(0, len(line), 2))`: the text in pairs, a space
      between each pair and the next. */
  function Spaced(line: string): (r: string)
    decreases |line|
  {
    if |line| <= 2 then line else line[..2] + " " + Spaced(line[2..])
  }

  /** The text with its spaces taken out. */
  function Unspace(s: string): (r: string)
    ensures |r| <= |s|
  {
    if s == [] then [] else (if s[0] == ' ' then [] else [s[0]]) + Unspace(s[1..])
  }

  lemma {:induction false} UnspaceAppend(a: string, b: string)
    ensures Unspace(a + b) == Unspace(a) + Unspace(b)
  {
    if a == [] {
      assert a + b == b;
    } else {
      assert (a + b)[1..] == a[1..] + b;
      UnspaceAppend(a[1..], b);
      assert (a + b)[0] == a[0];
    }
  }

  /** Taking the spaces out of a spaced line gives the line back. */
  lemma {:induction false} UnspaceSpaced(line: string)
    requires forall i :: 0 <= i < |line| ==> line[i] != ' '
    ensures Unspace(Spaced(line)) == line
    decreases |line|
  {
    if |line| <= 2 {
      UnspaceNone(line);
    } else {
      UnspaceAppend(line[..2] + " ", Spaced(line[2..]));
      UnspaceAppend(line[..2], " ");
      UnspaceNone(line[..2]);
      assert Unspace(" ") == [];
      UnspaceSpaced(line[2..]);
      assert line[..2] + [] + line[2..] == line;
    }
  }

  lemma {:induction false} UnspaceNone(s: string)
    requires forall i :: 0 <= i < |s| ==> s[i] != ' '
    ensures Unspace(s) == s
  {
    if s != [] {
      UnspaceNone(s[1..]);
      assert [s[0]] + s[1..] == s;
    }
  }

  /** The line of the `.hex` file for the hex text from character i on: the byte offset in
      at least four upper-case digits, then the next 64 characters as spaced pairs. */
  function DumpLine(hex: string, i: nat): string
    requires i <= |hex|
  {
    Hex.Format(i / 2, 4) + ": " + Spaced(hex[i..Min(i + 64, |hex|)]) + "\n"
  }

  /** The lines of the `.hex` file: one for every 64 hex characters, so for every 32 bytes. */
  function DumpLines(data: seq<Byte>): (lines: seq<string>)
    ensures |lines| == (|data| + 31) / 32
  {
    var hex := Hex.Encode(data, true);
    var rows := (|hex| + 63) / 64;
    assert rows == (|data| + 31) / 32;
    seq(rows, r requires 0 <= r < rows => DumpLine(hex, 64 * r))
  }

  /** Line r of the dump shows bytes 32r up to 32r + 32 (fewer on the last line): its offset
      field reads back as 32r, and its digits, spaces taken out, decode to those bytes. */
  lemma DumpLineShows(data: seq<Byte>, r: nat)
    requires r < |DumpLines(data)|
    ensures var lo := 32 * r;
      var hi := Min(lo + 32, |data|);
      && lo < hi && (hi - lo == 32 || hi == |data|)
      && DumpLines(data)[r] == Hex.Format(lo, 4) + ": " + Spaced(Hex.Encode(data[lo..hi], true)) + "\n"
      && Hex.Value(Hex.Format(lo, 4)) == Some(lo)
      && Hex.Decode(Unspace(Spaced(Hex.Encode(data[lo..hi], true)))) == Some(data[lo..hi])
  {
    DumpLineAt(data, r);
    Hex.FormatValue(32 * r, 4);
    SpacedReadsBack(data[32 * r..Min(32 * r + 32, |data|)]);
  }

  lemma DumpLineAt(data: seq<Byte>, r: nat)
    requires r < |DumpLines(data)|
    ensures var lo := 32 * r;
      var hi := Min(lo + 32, |data|);
      && lo < hi && (hi - lo == 32 || hi == |data|)
      && DumpLines(data)[r] == Hex.Format(lo, 4) + ": " + Spaced(Hex.Encode(data[lo..hi], true)) + "\n"
  {
    var lo := 32 * r;
    var hi := Min(lo + 32, |data|);
    var hex := Hex.Encode(data, true);
    assert DumpLines(data)[r] == DumpLine(hex, 2 * lo);
    Hex.EncodeSlice(data, lo, hi, true);
    DumpLineOf(hex, lo, hi, Hex.Encode(data[lo..hi], true));
  }

  lemma DumpLineOf(hex: string, lo: nat, hi: nat, piece: string)
    requires 2 * lo <= 2 * hi <= |hex| && 2 * hi == Min(2 * lo + 64, |hex|) && hex[2 * lo..2 * hi] == piece
    ensures DumpLine(hex, 2 * lo) == Hex.Format(lo, 4) + ": " + Spaced(piece) + "\n"
  {
  }

  /** Spaced upper-case digits, spaces taken out, decode to the bytes they encode. */
  lemma SpacedReadsBack(bytes: seq<Byte>)
    ensures Hex.Decode(Unspace(Spaced(Hex.Encode(bytes, true)))) == Some(bytes)
  {
    UnspaceSpaced(Hex.Encode(bytes, true));
    Hex.DecodeEncode(bytes, true);
  }

  /** The analysis `save_template` writes to the `_info.txt` file. */
  datatype Analysis = Analysis(size: nat, first: string, last: string, unique: nat,
                               mostCommon: Option<(Byte, nat)>, zeros: nat, nonZero: nat)

  /** The three files `save_template` writes: `.bin`, `.hex` and `_info.txt`, named after
      the identifier (the timestamp in the name is not modelled). */
  datatype Files = Files(identifier: string, bin: seq<Byte>, hexDump: seq<string>, info: Analysis)

  /** The keys of `byte_counts`: the distinct bytes of data in order of first occurrence. */
  function FirstOccurrences(data: seq<Byte>): (keys: seq<Byte>)
    ensures forall b :: b in keys <==> b in data
    ensures forall i, j :: 0 <= i < j < |keys| ==> keys[i] != keys[j]
  {
    if data == [] then []
    else
      var front := data[..|data| - 1];
      var b := data[|data| - 1];
      assert data == front + [b];
      var keys := FirstOccurrences(front);
      if b in keys then keys else keys + [b]
  }

  /** `byte_counts` as a map: each byte of data to the number of its occurrences. */
  function Tally(data: seq<Byte>): (counts: map<Byte, nat>)
    ensures forall b :: b in counts <==> b in data
    ensures forall b :: b in counts ==> counts[b] == multiset(data)[b]
  {
    map b | b in data :: multiset(data)[b]
  }

  /** `max(byte_counts, key=byte_counts.get)` as a position among the keys: the first key
      whose count is greatest. */
  function FirstMax(keys: seq<Byte>, counts: map<Byte, nat>): (j: nat)
    requires keys != [] && forall i :: 0 <= i < |keys| ==> keys[i] in counts
    ensures j < |keys|
    ensures forall i :: 0 <= i < |keys| ==> counts[keys[i]] <= counts[keys[j]]
    ensures forall i :: 0 <= i < j ==> counts[keys[i]] < counts[keys[j]]
  {
    if |keys| == 1 then 0
    else
      var front := keys[..|keys| - 1];
      var j := FirstMax(front, counts);
      if counts[keys[|keys| - 1]] > counts[keys[j]] then |keys| - 1 else j
  }

  lemma {:induction false} FirstIndexPrefix(a: seq<Byte>, c: seq<Byte>, x: Byte)
    requires x in a
    ensures FirstIndex(a + c, x) == FirstIndex(a, x)
  {
    if a[0] != x {
      assert (a + c)[1..] == a[1..] + c;
      FirstIndexPrefix(a[1..], c, x);
    }
  }

  /** Each key first occurs in data before every later key does. */
  predicate InFirstOrder(data: seq<Byte>, keys: seq<Byte>) {
    forall i, j :: 0 <= i < j < |keys| && keys[i] in data && keys[j] in data ==>
      FirstIndex(data, keys[i]) < FirstIndex(data, keys[j])
  }

  /** The keys come in the order in which their bytes first occur. */
  lemma {:induction false} FirstOccurrencesOrder(data: seq<Byte>)
    ensures InFirstOrder(data, FirstOccurrences(data))
  {
    if data != [] {
      var front := data[..|data| - 1];
      var b := data[|data| - 1];
      assert data == front + [b];
      FirstOccurrencesOrder(front);
      OrderSnoc(front, b);
    }
  }

  lemma OrderSnoc(front: seq<Byte>, b: Byte)
    requires InFirstOrder(front, FirstOccurrences(front))
    ensures InFirstOrder(front + [b], FirstOccurrences(front + [b]))
  {
    var data := front + [b];
    assert data[..|data| - 1] == front;
    var old_keys := FirstOccurrences(front);
    var keys := FirstOccurrences(data);
    forall i, j | 0 <= i < j < |keys|
      ensures FirstIndex(data, keys[i]) < FirstIndex(data, keys[j])
    {
      assert keys[i] == old_keys[i] && old_keys[i] in front;
      FirstIndexPrefix(front, [b], keys[i]);
      if j < |old_keys| {
        assert keys[j] == old_keys[j] && old_keys[j] in front;
        FirstIndexPrefix(front, [b], keys[j]);
      } else {
        assert keys[j] == b && b !in front;
        var k := FirstIndex(data, b);
        assert data[k] == b;
        assert k == |front|;
      }
    }
  }

  /** There is a most common byte exactly when the template is not empty. */
  lemma MostCommonExists(data: seq<Byte>)
    ensures Analyze(data).mostCommon.None? <==> data == []
  {
    if data != [] {
      assert data[0] in FirstOccurrences(data);
    }
  }

  /** The most common byte: it occurs, no byte occurs more often, and of the bytes that
      occur as often it is the one seen first. */
  lemma MostCommonByte(data: seq<Byte>)
    requires data != []
    ensures Analyze(data).mostCommon.Some?
    ensures var top := Analyze(data).mostCommon.value;
      && top.0 in data && top.1 == multiset(data)[top.0]
      && (forall x :: x in data ==> multiset(data)[x] <= top.1)
      && (forall x :: x in data && multiset(data)[x] == top.1 ==> FirstIndex(data, top.0) <= FirstIndex(data, x))
  {
    MostCommonExists(data);
    var keys := FirstOccurrences(data);
    var b := keys[FirstMax(keys, Tally(data))];
    assert Analyze(data).mostCommon.value == (b, multiset(data)[b]);
    FirstMaxFirst(data);
  }

  lemma FirstMaxFirst(data: seq<Byte>)
    requires data != []
    ensures var keys := FirstOccurrences(data);
      keys != [] &&
      var b := keys[FirstMax(keys, Tally(data))];
      && b in data
      && (forall x :: x in data ==> multiset(data)[x] <= multiset(data)[b])
      && (forall x :: x in data && multiset(data)[x] == multiset(data)[b] ==> FirstIndex(data, b) <= FirstIndex(data, x))
  {
    var keys := FirstOccurrences(data);
    assert data[0] in keys;
    var counts := Tally(data);
    var j := FirstMax(keys, counts);
    var b := keys[j];
    forall x | x in data
      ensures multiset(data)[x] <= multiset(data)[b]
      ensures multiset(data)[x] == multiset(data)[b] ==> FirstIndex(data, b) <= FirstIndex(data, x)
    {
      var i := KeyIndex(keys, x);
      KeyRanks(data, keys, counts, i, j);
    }
  }

  /** The position of a key. */
  lemma KeyIndex(keys: seq<Byte>, x: Byte) returns (i: nat)
    requires x in keys
    ensures i < |keys| && keys[i] == x
  {
    i :| 0 <= i < |keys| && keys[i] == x;
  }

  lemma KeyRanks(data: seq<Byte>, keys: seq<Byte>, counts: map<Byte, nat>, i: nat, j: nat)
    requires keys == FirstOccurrences(data) && counts == Tally(data) && keys != []
    requires i < |keys| && j == FirstMax(keys, counts)
    ensures multiset(data)[keys[i]] <= multiset(data)[keys[j]]
    ensures multiset(data)[keys[i]] == multiset(data)[keys[j]] ==> FirstIndex(data, keys[j]) <= FirstIndex(data, keys[i])
  {
    var x, b := keys[i], keys[j];
    assert x in data && b in data;
    assert counts[x] == multiset(data)[x] && counts[b] == multiset(data)[b];
    assert counts[x] <= counts[b];
    if j < i {
      FirstOccurrencesOrder(data);
      assert InFirstOrder(data, keys);
      assert FirstIndex(data, b) < FirstIndex(data, x);
    } else if i < j {
      assert counts[x] < counts[b];
    }
  }

  /** The sum of the counts of the given keys. */
  function Total(keys: seq<Byte>, data: seq<Byte>): nat {
    if keys == [] then 0 else Total(keys[..|keys| - 1], data) + multiset(data)[keys[|keys| - 1]]
  }

  lemma {:induction false} TotalSnoc(keys: seq<Byte>, data: seq<Byte>, b: Byte)
    requires forall i, j :: 0 <= i < j < |keys| ==> keys[i] != keys[j]
    ensures Total(keys, data + [b]) == Total(keys, data) + if b in keys then 1 else 0
  {
    if keys != [] {
      var front := keys[..|keys| - 1];
      var k := keys[|keys| - 1];
      TotalSnoc(front, data, b);
      assert multiset(data + [b]) == multiset(data) + multiset{b};
      assert b in keys <==> b in front || b == k;
      assert k == b ==> b !in front;
    }
  }

  /** Every byte is counted once: the counts add up to the length. */
  lemma {:induction false} CountsAddUp(data: seq<Byte>)
    ensures Total(FirstOccurrences(data), data) == |data|
  {
    if data != [] {
      var front := data[..|data| - 1];
      var b := data[|data| - 1];
      assert data == front + [b];
      var keys := FirstOccurrences(front);
      CountsAddUp(front);
      TotalSnoc(keys, front, b);
      if b !in keys {
        assert (keys + [b])[..|keys|] == keys;
        assert multiset(data) == multiset(front) + multiset{b};
      }
    }
  }

  /** The number of bytes that are not zero. */
  function NonZeroBytes(data: seq<Byte>): nat {
    if data == [] then 0 else NonZeroBytes(data[1..]) + if data[0] != 0 then 1 else 0
  }

  /** The zero count and the non-zero count split the template. */
  lemma {:induction false} ZerosAndNonZeros(data: seq<Byte>)
    ensures multiset(data)[0] + NonZeroBytes(data) == |data|
    ensures Analyze(data).zeros + Analyze(data).nonZero == Analyze(data).size
    ensures Analyze(data).nonZero == NonZeroBytes(data)
  {
    if data != [] {
      ZerosAndNonZeros(data[1..]);
      assert data == [data[0]] + data[1..];
      assert multiset(data) == multiset{data[0]} + multiset(data[1..]);
    }
  }

  /** What `save_template` writes about a template. */
  function Analyze(data: seq<Byte>): Analysis {
    var keys := FirstOccurrences(data);
    var n := |data|;
    var k := Min(32, n);
    var top := if keys == [] then None
               else var b := keys[FirstMax(keys, Tally(data))]; Some((b, multiset(data)[b]));
    Analysis(n, Hex.Encode(data[..k], true), Hex.Encode(data[n - k..], true), |keys|, top,
             multiset(data)[0], n - multiset(data)[0])
  }

  /** The files saved for a template. */
  function Saved(data: seq<Byte>, identifier: string): (f: Files)
    ensures f.identifier == identifier && f.bin == data
  {
    Files(identifier, data, DumpLines(data), Analyze(data))
  }

  /** Counting one more byte adds one to its entry, or makes a new entry of one. */
  lemma TallySnoc(data: seq<Byte>, b: Byte)
    ensures Tally(data + [b]) == Tally(data)[b := (if b in Tally(data) then Tally(data)[b] else 0) + 1]
  {
    var m := multiset(data + [b]);
    assert m == multiset(data) + multiset{b};
    var t := Tally(data + [b]);
    var u := Tally(data)[b := (if b in Tally(data) then Tally(data)[b] else 0) + 1];
    assert forall x :: x in t <==> x in u;
    assert forall x :: x in t ==> t[x] == u[x];
  }

  /** The `byte_counts` loop of `save_template`: the dict's keys in insertion order and its
      entries. */
  method ByteCounts(data: seq<Byte>) returns (keys: seq<Byte>, counts: map<Byte, nat>)
    ensures keys == FirstOccurrences(data) && counts == Tally(data)
  {
    keys := [];
    counts := map[];
    for i := 0 to |data|
      invariant keys == FirstOccurrences(data[..i])
      invariant counts == Tally(data[..i])
    {
      var b := data[i];
      assert data[..i + 1] == data[..i] + [b];
      assert data[..i + 1][..i] == data[..i];
      TallySnoc(data[..i], b);
      var count := if b in counts then counts[b] else 0;
      if b !in counts {
        keys := keys + [b];
      }
      counts := counts[b := count + 1];
    }
    assert data[..|data|] == data;
  }

  /** The loop that writes the `.hex` file, 64 hex characters to a line. */
  method HexDump(data: seq<Byte>) returns (lines: seq<string>)
    ensures lines == DumpLines(data)
  {
    var hex := Hex.Encode(data, true);
    lines := [];
    var i := 0;
    while i < |hex|
      invariant i == 64 * |lines|
      invariant |lines| <= (|hex| + 63) / 64
      invariant forall r :: 0 <= r < |lines| ==> lines[r] == DumpLine(hex, 64 * r)
    {
      var line := hex[i..Min(i + 64, |hex|)];
      var formatted := Spaced(line);
      lines := lines + [Hex.Format(i / 2, 4) + ": " + formatted + "\n"];
      i := i + 64;
    }
  }

  /** The statistics part of `save_template`. */
  method Statistics(data: seq<Byte>) returns (info: Analysis)
    ensures info == Analyze(data)
  {
    var keys, counts := ByteCounts(data);
    var n := |data|;
    var k := Min(32, n);
    var top: Option<(Byte, nat)> := None;
    if keys != [] {
      var b := keys[FirstMax(keys, counts)];
      top := Some((b, counts[b]));
    }
    var zeros := if 0 in counts then counts[0] else 0;
    assert zeros == multiset(data)[0];
    info := Analysis(n, Hex.Encode(data[..k], true), Hex.Encode(data[n - k..], true), |keys|, top,
                     zeros, n - zeros);
  }

  /** The files `listen_for_templates` saves from the bytes `input` on, `count` templates
      having been announced so far: at each HEX_START line the count goes up and a template
      is received; other lines are skipped, and a START line only prints. */
  function Session(input: seq<Byte>, count: nat): seq<Files>
    decreases |input|
  {
    var next := NextLine(input);
    if next.0.None? then []
    else if IsHexStart(next.0.value) then
      Announced(next.1, count + 1) + Session(AfterEnd(next.1), count + 1)
    else Session(next.1, count)
  }

  /** What is saved for template number n, received from `input`: nothing when it does not
      come back or is empty, otherwise its files under `_nnn`, with `_tiny` appended below
      10 bytes. */
  function Announced(input: seq<Byte>, n: nat): seq<Files> {
    SavedAs(Template(Gathered(input)), n)
  }

  function SavedAs(t: Option<seq<Byte>>, n: nat): seq<Files> {
    if t.None? || t.value == [] then []
    else if |t.value| >= 10 then [Saved(t.value, Suffix(n))]
    else [Saved(t.value, Suffix(n) + "_tiny")]
  }

  /** Every file set has at least 50 bytes and is named by the plain suffix of a count above
      `count`. */
  ghost predicate SavedPlainly(files: seq<Files>, count: nat) {
    forall i :: 0 <= i < |files| ==>
      |files[i].bin| >= 50 && exists n :: n > count && files[i].identifier == Suffix(n)
  }

  /** Every template saved has at least 50 bytes, so the `_tiny` branch is never taken:
      each one is saved under the plain suffix of a count above the starting one. */
  lemma {:induction false} SessionSaves(input: seq<Byte>, count: nat)
    ensures SavedPlainly(Session(input, count), count)
    decreases |input|
  {
    var next := NextLine(input);
    if next.0.Some? {
      if IsHexStart(next.0.value) {
        var here := Announced(next.1, count + 1);
        var later := Session(AfterEnd(next.1), count + 1);
        assert Session(input, count) == here + later;
        SessionSaves(AfterEnd(next.1), count + 1);
        AnnouncedPlainly(next.1, count + 1);
        PlainlyAppend(here, later, count);
      } else {
        assert Session(input, count) == Session(next.1, count);
        SessionSaves(next.1, count);
      }
    } else {
      assert Session(input, count) == [];
    }
  }

  lemma AnnouncedPlainly(input: seq<Byte>, n: nat)
    requires n >= 1
    ensures SavedPlainly(Announced(input, n), n - 1)
  {
    var hex := Gathered(input);
    TemplateShape(hex);
    SavedAsPlainly(Template(hex), n);
  }

  lemma SavedAsPlainly(t: Option<seq<Byte>>, n: nat)
    requires n >= 1 && (t.Some? ==> |t.value| >= 50)
    ensures SavedPlainly(SavedAs(t, n), n - 1)
  {
    if t.Some? && t.value != [] {
      PlainlyOne(t.value, n);
    }
  }

  lemma PlainlyOne(data: seq<Byte>, n: nat)
    requires |data| >= 50 && n >= 1
    ensures SavedPlainly([Saved(data, Suffix(n))], n - 1)
  {
    var f := Saved(data, Suffix(n));
    var count := n - 1;
    forall i | 0 <= i < 1
      ensures |[f][i].bin| >= 50 && exists m :: m > count && [f][i].identifier == Suffix(m)
    {
      assert [f][i] == f;
    }
  }

  lemma PlainlyAppend(a: seq<Files>, b: seq<Files>, count: nat)
    requires SavedPlainly(a, count) && SavedPlainly(b, count + 1)
    ensures SavedPlainly(a + b, count)
  {
    forall i | 0 <= i < |a + b|
      ensures |(a + b)[i].bin| >= 50 && exists n :: n > count && (a + b)[i].identifier == Suffix(n)
    {
      if i >= |a| {
        var f := b[i - |a|];
        assert (a + b)[i] == f;
        var n :| n > count + 1 && f.identifier == Suffix(n);
      }
    }
  }

  lemma SessionSilent(input: seq<Byte>, count: nat)
    requires NextLine(input).0.None?
    ensures Session(input, count) == []
  {
  }

  lemma SessionStart(input: seq<Byte>, count: nat)
    requires NextLine(input).0.Some? && IsHexStart(NextLine(input).0.value)
    ensures Session(input, count)
         == Announced(NextLine(input).1, count + 1) + Session(AfterEnd(NextLine(input).1), count + 1)
  {
  }

  lemma SessionSkip(input: seq<Byte>, count: nat)
    requires NextLine(input).0.Some? && !IsHexStart(NextLine(input).0.value)
    ensures Session(input, count) == Session(NextLine(input).1, count)
  {
  }

  lemma Regroup3(a: seq<Files>, b: seq<Files>, c: seq<Files>)
    ensures a + (b + c) == (a + b) + c
  {
  }

  /** `FingerprintReceiver`: the serial port (open or not, and the bytes it will deliver),
      the `running` flag, and the files written to the output directory. */
  class FingerprintReceiver {
    var connected: bool
    var pending: seq<Byte>
    var running: bool
    var saved: seq<Files>

    /** `__init__`: no port yet, not running, nothing saved. */
    constructor ()
      ensures !connected && pending == [] && !running && saved == []
    {
      connected := false;
      pending := [];
      running := false;
      saved := [];
    }

    /** A successful `connect`: the port is open, the input buffer is flushed, and what the
        board sends from then on is `arriving`. */
    method Connect(arriving: seq<Byte>)
      modifies this`connected, this`pending
      ensures connected && pending == arriving
    {
      connected := true;
      pending := arriving;
    }

    /** `read_line_with_timeout`: bytes are read one at a time until a line feed. */
    method ReadLine() returns (line: Option<string>)
      modifies this`pending
      ensures (line, pending) == NextLine(old(pending))
    {
      ghost var input := pending;
      ghost var k := 0;
      var text: string := [];
      while pending != []
        invariant k <= |input| && pending == input[k..]
        invariant LineFeed !in input[..k]
        invariant text == Assemble(input[..k])
        decreases |pending|
      {
        var b := pending[0];
        pending := pending[1..];
        var c := DecodeByte(b);
        if c == "\n" {
          NextLineAt(input, k);
          return Some(Strip(text));
        }
        AssembleSnoc(input[..k], b);
        assert input[..k + 1] == input[..k] + [b];
        if c != "\r" {
          text := text + c;
        }
        k := k + 1;
      }
      assert input[..k] == input;
      line := None;
    }

    /** `receive_hex_template`: lines are read until an end marker or until the port falls
        silent, the cleaned non-empty ones gathered; then the size rule and `unhexlify`. */
    method ReceiveHexTemplate() returns (t: Option<seq<Byte>>)
      modifies this`pending
      ensures t == Template(Gathered(old(pending)))
      ensures pending == AfterEnd(old(pending))
    {
      var hex: string := [];
      while true
        invariant Gathered(old(pending)) == hex + Gathered(pending)
        invariant AfterEnd(old(pending)) == AfterEnd(pending)
        decreases |pending|
      {
        ghost var before := pending;
        var line := ReadLine();
        if line.None? || IsEndMarker(line.value) {
          GatherDone(old(pending), before, pending, hex);
          break;
        }
        var clean := Clean(line.value);
        GatherMore(old(pending), before, line.value, pending, hex);
        if clean != [] {
          hex := hex + clean;
        }
      }
      if |hex| < 100 {
        return None;
      }
      t := Hex.Decode(hex);
    }

    /** `save_template`: the three files for the template, named by the identifier. */
    method SaveTemplate(data: seq<Byte>, identifier: string)
      modifies this`saved
      ensures saved == old(saved) + [Saved(data, identifier)]
    {
      var hexDump := HexDump(data);
      var info := Statistics(data);
      saved := saved + [Files(identifier, data, hexDump, info)];
    }

    /** `listen_for_templates`: nothing happens without an open port; otherwise lines are
        handled until the port falls silent for good, which here stands for the interrupt
        that stops the loop. */
    method ListenForTemplates()
      modifies this`pending, this`running, this`saved
      ensures !connected ==> pending == old(pending) && running == old(running) && saved == old(saved)
      ensures connected ==> saved == old(saved) + Session(old(pending), 0) && pending == [] && !running
    {
      if !connected {
        return;
      }
      running := true;
      var count := 0;
      while running
        invariant connected
        invariant running ==> old(saved) + Session(old(pending), 0) == saved + Session(pending, count)
        invariant !running ==> old(saved) + Session(old(pending), 0) == saved && pending == []
        decreases |pending| + if running then 1 else 0
      {
        count, running := ListenStep(count);
      }
    }

    /** One pass of the `while self.running` loop: a line is read; a silent port ends the
        session, HEX_START receives and saves template number `count + 1`, any other line
        is passed over. */
    method ListenStep(count: nat) returns (next: nat, more: bool)
      modifies this`pending, this`saved
      ensures more ==> old(saved) + Session(old(pending), count) == saved + Session(pending, next)
      ensures more ==> |pending| < |old(pending)|
      ensures !more ==> old(saved) + Session(old(pending), count) == saved && pending == []
    {
      ghost var before := pending;
      var line := ReadLine();
      if line.None? {
        SessionSilent(before, count);
        assert saved + [] == saved;
        return count, false;
      }
      more := true;
      if IsHexStart(line.value) {
        next := count + 1;
        ghost var rest := pending;
        HandleTemplate(next);
        SessionStart(before, count);
        Regroup3(old(saved), Announced(rest, next), Session(pending, next));
      } else {
        next := count;
        SessionSkip(before, count);
      }
    }

    /** The HEX_START branch of `listen_for_templates` for template number `count`. */
    method HandleTemplate(count: nat)
      modifies this`pending, this`saved
      ensures saved == old(saved) + Announced(old(pending), count)
      ensures pending == AfterEnd(old(pending))
    {
      ghost var input := pending;
      var t := ReceiveHexTemplate();
      assert Announced(input, count) == SavedAs(t, count);
      if t.Some? && t.value != [] {
        var identifier := if |t.value| >= 10 then Suffix(count) else Suffix(count) + "_tiny";
        SaveTemplate(t.value, identifier);
      } else {
        assert old(saved) + [] == old(saved);
      }
    }
  }
}
