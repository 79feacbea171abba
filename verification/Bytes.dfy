/**
  Fixed-width integers in memory: the byte order is little-endian, signed integers are in two's
  complement, and lengths are 32-bit unsigned with wrap-around.
*/
module Bytes {
  const TWO_32: nat := 0x1_0000_0000
  const TWO_64: nat := 0x1_0000_0000_0000_0000

  type Byte = b: int | 0 <= b < 256
  type UInt32 = n: int | 0 <= n < 0x1_0000_0000
  type UInt64 = n: int | 0 <= n < 0x1_0000_0000_0000_0000
  type Int32 = n: int | -0x8000_0000 <= n < 0x8000_0000
  type Int16 = n: int | -0x8000 <= n < 0x8000

  function ToUInt32(n: nat): UInt32 { n % TWO_32 }

  lemma Remainder(n: nat, quotient: nat, r: UInt32)
    requires n == TWO_32 * quotient + r
    ensures ToUInt32(n) == r
  {
  }

  lemma WrapSum(a: nat, b: nat)
    ensures ToUInt32(ToUInt32(a) + b) == ToUInt32(a + b)
    ensures ToUInt32(a + ToUInt32(b)) == ToUInt32(a + b)
  {
    var s, t := ToUInt32(a) + b, a + ToUInt32(b);
    Remainder(a + b, a / TWO_32 + s / TWO_32, ToUInt32(s));
    Remainder(a + b, b / TWO_32 + t / TWO_32, ToUInt32(t));
  }

  function Pow256(n: nat): (p: nat)
    ensures p > 0
  {
    if n == 0 then 1 else 256 * Pow256(n - 1)
  }

  /** The low `width` bytes of `v`, least significant first. */
  function LeBytes(width: nat, v: nat): (b: seq<Byte>)
    ensures |b| == width
    decreases width
  {
    if width == 0 then [] else [v % 256] + LeBytes(width - 1, v / 256)
  }

  function LeValue(b: seq<Byte>): nat {
    if b == [] then 0 else b[0] + 256 * LeValue(b[1..])
  }

  /** Byte k of an integer has the weight 256 to the k. */
  lemma {:induction false} LeByteAt(width: nat, v: nat, k: nat)
    requires k < width
    ensures LeBytes(width, v)[k] == (v / Pow256(k)) % 256
    decreases k
  {
    if k > 0 {
      LeByteAt(width - 1, v / 256, k - 1);
      DivideTwice(v, Pow256(k - 1));
    }
  }

  lemma DivideTwice(v: nat, p: nat)
    requires p > 0
    ensures (v / 256) / p == v / (256 * p)
  {
    var q, r := v / 256, v % 256;
    var a, b := q / p, q % p;
    assert v == 256 * q + r && q == p * a + b;
    assert v == (256 * p) * a + (256 * b + r) by { assert 256 * (p * a) == (256 * p) * a; }
    assert 256 * b + r < 256 * p;
    QuotientIs(v, 256 * p, a, 256 * b + r);
  }

  lemma QuotientIs(v: nat, d: nat, q: nat, r: nat)
    requires d > 0 && v == d * q + r && r < d
    ensures v / d == q
  {
    var p := v / d;
    assert v == d * p + v % d;
    ProductMonotone(d, p + 1, q);
    ProductMonotone(d, q + 1, p);
  }

  lemma ProductMonotone(d: nat, x: nat, y: nat)
    ensures x <= y ==> d * x <= d * y
  {
    if x <= y {
      assert d * y == d * x + d * (y - x);
    }
  }

  lemma {:induction false} LeValueBound(b: seq<Byte>)
    ensures LeValue(b) < Pow256(|b|)
  {
    if b != [] { LeValueBound(b[1..]); }
  }

  lemma {:induction false} LeRoundTrip(width: nat, v: nat)
    requires v < Pow256(width)
    ensures LeValue(LeBytes(width, v)) == v
    decreases width
  {
    if width > 0 {
      LeRoundTrip(width - 1, v / 256);
    }
  }

  /** Reading back any bytes as an integer and writing the integer gives the bytes. */
  lemma {:induction false} LeBytesOfValue(b: seq<Byte>)
    ensures LeBytes(|b|, LeValue(b)) == b
  {
    if b != [] {
      LeBytesOfValue(b[1..]);
      var tail := LeValue(b[1..]);
      assert (b[0] + 256 * tail) / 256 == tail && (b[0] + 256 * tail) % 256 == b[0];
      assert b == [b[0]] + b[1..];
    }
  }

  lemma Widths()
    ensures Pow256(1) == 256 && Pow256(2) == 0x1_0000 && Pow256(4) == TWO_32 && Pow256(8) == TWO_64
  {
    assert Pow256(3) == 0x100_0000;
    assert Pow256(5) == 0x100_0000_0000 && Pow256(6) == 0x1_0000_0000_0000 && Pow256(7) == 0x100_0000_0000_0000;
  }

  function Unsigned(modulus: nat, v: int): nat
    requires modulus > 0
  {
    v % modulus
  }

  function Signed(modulus: nat, u: nat): int {
    if 2 * u >= modulus then u - modulus else u
  }

  /** An array of 64-bit words in memory. */
  function WordBytes(words: seq<UInt64>): (b: seq<Byte>)
    ensures |b| == 8 * |words|
  {
    if words == [] then [] else LeBytes(8, words[0]) + WordBytes(words[1..])
  }

  function WordAt(b: seq<Byte>, k: nat): UInt64
    requires 8 * k + 8 <= |b|
  {
    LeValueBound(b[8 * k..8 * k + 8]);
    Widths();
    LeValue(b[8 * k..8 * k + 8])
  }

  function Words(b: seq<Byte>, n: nat): (words: seq<UInt64>)
    requires 8 * n <= |b|
    ensures |words| == n
  {
    seq(n, k requires 0 <= k < n => WordAt(b, k))
  }

  lemma {:induction false} WordBytesAt(words: seq<UInt64>, k: nat)
    requires k < |words|
    ensures WordBytes(words)[8 * k..8 * k + 8] == LeBytes(8, words[k])
  {
    hide LeBytes;
    var head, tail := LeBytes(8, words[0]), WordBytes(words[1..]);
    assert WordBytes(words) == head + tail;
    if k > 0 {
      WordBytesAt(words[1..], k - 1);
      assert (head + tail)[8 * k..8 * k + 8] == tail[8 * (k - 1)..8 * (k - 1) + 8];
    } else {
      assert (head + tail)[0..8] == head;
    }
  }

  lemma WordsRoundTrip(words: seq<UInt64>, rest: seq<Byte>)
    ensures Words(WordBytes(words) + rest, |words|) == words
  {
    hide LeBytes, LeValue, WordBytes, Pow256;
    forall k | 0 <= k < |words| ensures WordAt(WordBytes(words) + rest, k) == words[k] {
      var b := WordBytes(words);
      assert (b + rest)[8 * k..8 * k + 8] == b[8 * k..8 * k + 8];
      WordBytesAt(words, k);
      Widths();
      LeRoundTrip(8, words[k]);
    }
  }

  /** A C string: bytes without a terminator among them. */
  type CString = s: seq<Byte> | 0 !in s

  /** What a C function that is given these bytes takes for the string: up to the first NUL. */
  function UpToNul(b: seq<Byte>): CString {
    if b == [] || b[0] == 0 then [] else [b[0]] + UpToNul(b[1..])
  }

  lemma {:induction false} UpToNulOf(s: CString, rest: seq<Byte>)
    ensures UpToNul(s + [0] + rest) == s
  {
    if s != [] {
      var tail: CString := s[1..];
      assert (s + [0] + rest)[1..] == tail + [0] + rest;
      UpToNulOf(tail, rest);
    }
  }
}
