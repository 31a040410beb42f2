/** Bytes, the byte-wise XOR used by both stream ciphers, and the little-endian
    int32 layout that numpy's `tobytes` / `frombuffer(dtype=int32)` produce. */
module Bytes {

  newtype Byte = x: int | 0 <= x < 256

  function Pow2(w: nat): (r: nat)
    ensures r >= 1
  {
    if w == 0 then 1 else 2 * Pow2(w - 1)
  }

  /** Bitwise exclusive or of the low `w` bits of two naturals, least significant bit first. */
  function XorBits(a: nat, b: nat, w: nat): (r: nat)
    ensures r < Pow2(w)
  {
    if w == 0 then 0 else (a % 2 + b % 2) % 2 + 2 * XorBits(a / 2, b / 2, w - 1)
  }

  lemma {:induction false} XorBitsTwice(a: nat, b: nat, w: nat)
    requires a < Pow2(w)
    ensures XorBits(XorBits(a, b, w), b, w) == a
  {
    if w > 0 {
      var low := (a % 2 + b % 2) % 2;
      var high := XorBits(a / 2, b / 2, w - 1);
      var r := XorBits(a, b, w);
      assert r == low + 2 * high;
      LowAndHigh(low, high);
      BitTwice(a % 2, b % 2);
      XorBitsTwice(a / 2, b / 2, w - 1);
      assert XorBits(r, b, w) == (low + b % 2) % 2 + 2 * XorBits(high, b / 2, w - 1);
    }
  }

  lemma LowAndHigh(low: nat, high: nat)
    requires low < 2
    ensures (low + 2 * high) % 2 == low && (low + 2 * high) / 2 == high
  {
  }

  lemma BitTwice(x: nat, y: nat)
    requires x < 2 && y < 2
    ensures ((x + y) % 2 + y) % 2 == x
  {
  }

  /** Bitwise exclusive or of two bytes (Python's `^` on byte values). */
  function XorByte(a: Byte, b: Byte): Byte {
    assert Pow2(8) == 256;
    XorBits(a as nat, b as nat, 8) as Byte
  }

  lemma XorByteTwice(a: Byte, b: Byte)
    ensures XorByte(XorByte(a, b), b) == a
  {
    assert Pow2(8) == 256;
    XorBitsTwice(a as nat, b as nat, 8);
  }

  const Int32Min: int := -0x8000_0000
  const Int32Limit: int := 0x8000_0000   // exclusive upper bound
  const Int64Limit: int := 0x8000_0000_0000_0000

  predicate InInt32(x: int) { Int32Min <= x < Int32Limit }

  /** Two's-complement wrap-around of an integer into int32, as numpy int32 arithmetic does. */
  function Wrap32(x: int): (r: int)
    ensures InInt32(r)
    ensures (r - x) % 0x1_0000_0000 == 0
    ensures InInt32(x) ==> r == x
  {
    (x + Int32Limit) % 0x1_0000_0000 - Int32Limit
  }

  /** `bytes(a ^ b for a, b in zip(x, y))`: zip stops at the shorter input. */
  function Xor(x: seq<Byte>, y: seq<Byte>): (r: seq<Byte>)
    ensures |r| == if |x| <= |y| then |x| else |y|
    ensures forall i :: 0 <= i < |r| ==> r[i] == XorByte(x[i], y[i])
  {
    if |x| == 0 || |y| == 0 then [] else [XorByte(x[0], y[0])] + Xor(x[1..], y[1..])
  }

  /** XOR with the same pad twice gives the input back. */
  lemma XorTwice(x: seq<Byte>, pad: seq<Byte>)
    requires |pad| == |x|
    ensures Xor(Xor(x, pad), pad) == x
  {
    var once := Xor(x, pad);
    var twice := Xor(once, pad);
    assert |twice| == |x|;
    forall i | 0 <= i < |x| ensures twice[i] == x[i] {
      assert once[i] == XorByte(x[i], pad[i]);
      XorByteTwice(x[i], pad[i]);
    }
  }

  /** The value of a byte read as numpy int8 (two's complement). */
  function Int8(b: Byte): (r: int)
    ensures -128 <= r < 128
    ensures r % 256 == b as int
  {
    if b < 128 then b as int else b as int - 256
  }

  /** Little-endian two's-complement encoding of one int32. */
  function Int32Bytes(x: int): (r: seq<Byte>)
    requires InInt32(x)
    ensures |r| == 4
  {
    var u0 := x % 0x1_0000_0000;
    var u1 := u0 / 256;
    var u2 := u1 / 256;
    var u3 := u2 / 256;
    [(u0 % 256) as Byte, (u1 % 256) as Byte, (u2 % 256) as Byte, (u3 % 256) as Byte]
  }

  /** The unsigned little-endian value of four bytes. */
  function Word(b0: Byte, b1: Byte, b2: Byte, b3: Byte): (u: int)
    ensures 0 <= u < 0x1_0000_0000
  {
    b0 as int + 256 * (b1 as int + 256 * (b2 as int + 256 * b3 as int))
  }

  /** The int32 stored little-endian at bytes[4m .. 4m + 4]. */
  function Int32At(bytes: seq<Byte>, m: nat): (r: int)
    requires 4 * m + 4 <= |bytes|
    ensures InInt32(r)
  {
    var u := Word(bytes[4 * m], bytes[4 * m + 1], bytes[4 * m + 2], bytes[4 * m + 3]);
    if u < Int32Limit then u else u - 0x1_0000_0000
  }

  lemma Int32RoundTrip(x: int)
    requires InInt32(x)
    ensures Int32At(Int32Bytes(x), 0) == x
  {
    var u0 := x % 0x1_0000_0000;
    WordOfLowBytes(u0);
    assert x < 0 ==> u0 == x + 0x1_0000_0000;
    assert x >= 0 ==> u0 == x;
  }

  /** The four low bytes of an unsigned 32-bit value, read back little-endian, give it. */
  lemma WordOfLowBytes(u0: int)
    requires 0 <= u0 < 0x1_0000_0000
    ensures var u1 := u0 / 256; var u2 := u1 / 256; var u3 := u2 / 256;
      Word((u0 % 256) as Byte, (u1 % 256) as Byte, (u2 % 256) as Byte, (u3 % 256) as Byte) == u0
  {
    var u1 := u0 / 256;
    var u2 := u1 / 256;
    var u3 := u2 / 256;
    assert u0 == u0 % 256 + 256 * u1;
    assert u1 == u1 % 256 + 256 * u2;
    assert u2 == u2 % 256 + 256 * u3;
    assert 0 <= u3 < 256;
  }

  /** numpy `tobytes()` of a flat int32 array. */
  function Int32sToBytes(xs: seq<int>): (r: seq<Byte>)
    requires forall i :: 0 <= i < |xs| ==> InInt32(xs[i])
    ensures |r| == 4 * |xs|
  {
    if xs == [] then [] else Int32Bytes(xs[0]) + Int32sToBytes(xs[1..])
  }

  /** numpy `frombuffer(bytes, dtype=int32)`; the caller has checked |bytes| % 4 == 0. */
  function BytesToInt32s(bytes: seq<Byte>): (r: seq<int>)
    requires |bytes| % 4 == 0
    ensures |r| == |bytes| / 4
    ensures forall m :: 0 <= m < |r| ==> r[m] == Int32At(bytes, m)
    decreases |bytes|
  {
    if bytes == [] then []
    else
      var rest := BytesToInt32s(bytes[4..]);
      assert forall m :: 1 <= m < |rest| + 1 ==> Int32At(bytes, m) == Int32At(bytes[4..], m - 1);
      [Int32At(bytes, 0)] + rest
  }

  /** Reading back what `tobytes` wrote gives the same integers. */
  lemma {:induction false} Int32sRoundTrip(xs: seq<int>)
    requires forall i :: 0 <= i < |xs| ==> InInt32(xs[i])
    ensures BytesToInt32s(Int32sToBytes(xs)) == xs
  {
    if xs != [] {
      var bytes := Int32sToBytes(xs);
      Int32RoundTrip(xs[0]);
      assert bytes[..4] == Int32Bytes(xs[0]);
      assert bytes[4..] == Int32sToBytes(xs[1..]);
      Int32sRoundTrip(xs[1..]);
      var r := BytesToInt32s(bytes);
      assert |r| == |xs|;
      forall m | 0 <= m < |xs| ensures r[m] == xs[m] {
        if m == 0 {
          assert Int32At(bytes, 0) == Int32At(bytes[..4], 0);
        } else {
          assert Int32At(bytes, m) == Int32At(bytes[4..], m - 1);
          assert BytesToInt32s(bytes[4..])[m - 1] == xs[1..][m - 1];
        }
      }
    }
  }

  function Pow256(w: nat): (r: nat)
    ensures r >= 1
  {
    if w == 0 then 1 else 256 * Pow256(w - 1)
  }

  /** `int.from_bytes(b, 'big')`: the unsigned value of b, most significant byte first. */
  function BigEndian(b: seq<Byte>): (r: nat)
    ensures r < Pow256(|b|)
  {
    if b == [] then 0 else 256 * BigEndian(b[..|b| - 1]) + b[|b| - 1] as nat
  }

  /** The w-byte big-endian encoding of v modulo 256^w (`struct.pack('>I', v)` for w = 4). */
  function BigEndianBytes(v: nat, w: nat): (r: seq<Byte>)
    ensures |r| == w
  {
    if w == 0 then [] else BigEndianBytes(v / 256, w - 1) + [(v % 256) as Byte]
  }

  /** Encoding a value that fits, then reading it back, gives the value. */
  lemma {:induction false} BigEndianRoundTrip(v: nat, w: nat)
    requires v < Pow256(w)
    ensures BigEndian(BigEndianBytes(v, w)) == v
  {
    if w > 0 {
      var r := BigEndianBytes(v, w);
      assert r[..w - 1] == BigEndianBytes(v / 256, w - 1);
      BigEndianRoundTrip(v / 256, w - 1);
    }
  }

  /** Reading bytes, then encoding the value at the same width, gives the bytes. */
  lemma {:induction false} BigEndianBytesRoundTrip(b: seq<Byte>)
    ensures BigEndianBytes(BigEndian(b), |b|) == b
  {
    if b != [] {
      var front := b[..|b| - 1];
      var v := BigEndian(b);
      assert v / 256 == BigEndian(front);
      BigEndianBytesRoundTrip(front);
    }
  }

  /** Row-major flattening of a two-dimensional array (numpy's C order). */
  function Flatten(rows: seq<seq<int>>): (r: seq<int>)
    ensures |r| == TotalLength(rows)
  {
    if rows == [] then [] else rows[0] + Flatten(rows[1..])
  }

  function TotalLength(rows: seq<seq<int>>): nat {
    if rows == [] then 0 else |rows[0]| + TotalLength(rows[1..])
  }

  predicate AllInt32(rows: seq<seq<int>>) {
    forall i, j :: 0 <= i < |rows| && 0 <= j < |rows[i]| ==> InInt32(rows[i][j])
  }

  lemma {:induction false} FlattenInt32(rows: seq<seq<int>>)
    requires AllInt32(rows)
    ensures forall i :: 0 <= i < |Flatten(rows)| ==> InInt32(Flatten(rows)[i])
  {
    if rows != [] {
      FlattenInt32(rows[1..]);
      var f := Flatten(rows);
      forall i | 0 <= i < |f| ensures InInt32(f[i]) {
        if i < |rows[0]| { assert f[i] == rows[0][i]; }
        else { assert f[i] == Flatten(rows[1..])[i - |rows[0]|]; }
      }
    }
  }
}
