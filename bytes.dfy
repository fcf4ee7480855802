/** Machine-level representation used by the binary format.

    The C++ code writes the raw bytes of its native integers
    (`reinterpret_cast<const char*>(&x)`). The model fixes one layout:
    little-endian, `DataType` and `int` in 4 bytes, `size_t` in 8 bytes,
    the string length prefix (`size_length_t`, a `uint16_t`) in 2 bytes.
    A `std::string` is a sequence of bytes, and `std::string` comparison
    (the order of a `std::map` key) is byte-wise lexicographic. */
module Bytes {

  newtype uint8 = x: int | 0 <= x < 0x100
  newtype uint64 = x: int | 0 <= x < 0x1_0000_0000_0000_0000
  newtype int32 = x: int | -0x8000_0000 <= x < 0x8000_0000
  newtype int64 = x: int | -0x8000_0000_0000_0000 <= x < 0x8000_0000_0000_0000

  type Bytes = seq<uint8>

  /** Encodings laid one after the other regroup freely. */
  lemma AppendAssoc(a: Bytes, b: Bytes, c: Bytes)
    ensures a + b + c == a + (b + c)
  {
  }

  lemma EmptyAppend<T>(s: seq<T>)
    ensures [] + s == s && s + [] == s
  {
  }

  /** Moving the head of `s` onto the end of `acc`. */
  lemma ShiftHead<T>(acc: seq<T>, s: seq<T>)
    requires s != []
    ensures acc + [s[0]] + s[1..] == acc + s
  {
  }

  const TWO_16: nat := 0x1_0000
  const TWO_32: nat := 0x1_0000_0000
  const TWO_64: nat := 0x1_0000_0000_0000_0000

  function Pow256(n: nat): (r: nat)
    ensures r > 0
  {
    if n == 0 then 1 else 256 * Pow256(n - 1)
  }

  lemma Pow256Widths()
    ensures Pow256(2) == TWO_16 && Pow256(4) == TWO_32 && Pow256(8) == TWO_64
  {
    assert Pow256(1) == 256;
    assert Pow256(2) == 0x1_0000;
    assert Pow256(3) == 0x100_0000;
    assert Pow256(4) == 0x1_0000_0000;
    assert Pow256(5) == 0x100_0000_0000;
    assert Pow256(6) == 0x1_0000_0000_0000;
    assert Pow256(7) == 0x100_0000_0000_0000;
  }

  /** The `width` low-order bytes of `n`, least significant first. */
  function ToLE(n: nat, width: nat): (r: Bytes)
    requires n < Pow256(width)
    ensures |r| == width
  {
    if width == 0 then [] else [(n % 256) as uint8] + ToLE(n / 256, width - 1)
  }

  /** The number whose little-endian bytes are `b`. */
  function FromLE(b: Bytes): (n: nat)
    ensures n < Pow256(|b|)
  {
    if b == [] then 0
    else
      var rest := FromLE(b[1..]);
      assert b[0] as nat + 256 * rest <= 255 + 256 * (Pow256(|b| - 1) - 1);
      b[0] as nat + 256 * rest
  }

  lemma {:induction false} FromLEToLE(n: nat, width: nat)
    requires n < Pow256(width)
    ensures FromLE(ToLE(n, width)) == n
  {
    if width > 0 {
      var r := ToLE(n, width);
      FromLEToLE(n / 256, width - 1);
      assert r[1..] == ToLE(n / 256, width - 1);
    }
  }

  lemma {:induction false} ToLEFromLE(b: Bytes)
    ensures ToLE(FromLE(b), |b|) == b
  {
    if b != [] {
      var n := FromLE(b);
      ToLEFromLE(b[1..]);
      assert n % 256 == b[0] as nat && n / 256 == FromLE(b[1..]);
    }
  }

  /** Fixed-width unsigned encodings. */
  function U16(n: nat): (r: Bytes)
    requires n < TWO_16
    ensures |r| == 2
  {
    Pow256Widths();
    ToLE(n, 2)
  }

  function U32(n: nat): (r: Bytes)
    requires n < TWO_32
    ensures |r| == 4
  {
    Pow256Widths();
    ToLE(n, 4)
  }

  function U64(n: nat): (r: Bytes)
    requires n < TWO_64
    ensures |r| == 8
  {
    Pow256Widths();
    ToLE(n, 8)
  }

  /** A 32-bit `int` in two's complement. */
  function I32(x: int32): (r: Bytes)
    ensures |r| == 4
  {
    U32(if x < 0 then x as int + TWO_32 else x as int)
  }

  function DecodeI32(b: Bytes): (x: int32)
    requires |b| == 4
  {
    Pow256Widths();
    var u := FromLE(b);
    if u >= 0x8000_0000 then (u - TWO_32) as int32 else u as int32
  }

  lemma UnsignedRoundTrip(n: nat, width: nat)
    requires width in {2, 4, 8} && n < Pow256(width)
    ensures width == 2 ==> FromLE(U16(n)) == n
    ensures width == 4 ==> FromLE(U32(n)) == n
    ensures width == 8 ==> FromLE(U64(n)) == n
  {
    Pow256Widths();
    FromLEToLE(n, width);
  }

  lemma I32RoundTrip(x: int32)
    ensures DecodeI32(I32(x)) == x
  {
    Pow256Widths();
    var u := if x < 0 then x as int + TWO_32 else x as int;
    FromLEToLE(u, 4);
  }

  /** `std::string` ordering: byte-wise lexicographic, a proper prefix first. */
  predicate LexLess(a: Bytes, b: Bytes)
    decreases |a|
  {
    if |a| == 0 then |b| > 0
    else if |b| == 0 then false
    else if a[0] != b[0] then a[0] < b[0]
    else LexLess(a[1..], b[1..])
  }

  lemma {:induction false} LexIrreflexive(a: Bytes)
    ensures !LexLess(a, a)
  {
    if |a| > 0 { LexIrreflexive(a[1..]); }
  }

  lemma {:induction false} LexTransitive(a: Bytes, b: Bytes, c: Bytes)
    requires LexLess(a, b) && LexLess(b, c)
    ensures LexLess(a, c)
    decreases |a|
  {
    if |a| > 0 && |b| > 0 && |c| > 0 && a[0] == b[0] && b[0] == c[0] {
      LexTransitive(a[1..], b[1..], c[1..]);
    }
  }

  lemma {:induction false} LexTotal(a: Bytes, b: Bytes)
    requires a != b
    ensures LexLess(a, b) || LexLess(b, a)
    decreases |a|
  {
    if |a| > 0 && |b| > 0 && a[0] == b[0] {
      assert a == [a[0]] + a[1..] && b == [b[0]] + b[1..];
      LexTotal(a[1..], b[1..]);
    }
  }

  lemma {:induction false} LexAsymmetric(a: Bytes, b: Bytes)
    requires LexLess(a, b)
    ensures !LexLess(b, a)
  {
    if !LexLess(b, a) {
    } else {
      LexTransitive(a, b, a);
      LexIrreflexive(a);
    }
  }
}
