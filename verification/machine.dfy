/** Integer semantics of the LP64 C platform the collector is built for
    (`size_t`, `time_t`, `long` and `unsigned long` are all 8 bytes wide,
    `short` is 2 bytes), and the little-endian byte layout its files use. */
module Machine {

  /** A value or its absence: a NULL pointer in the C code, a raised
      exception in the Python readers. */
  datatype Option<+T> = None | Some(value: T)

  const TWO_8: int := 0x100
  const TWO_15: int := 0x8000
  const TWO_16: int := 0x1_0000
  const TWO_63: int := 0x8000_0000_0000_0000
  const TWO_64: int := 0x1_0000_0000_0000_0000

  type Byte = b: int | 0 <= b < 0x100

  /** `unsigned long` / `size_t`. */
  type U64 = x: int | 0 <= x < 0x1_0000_0000_0000_0000

  /** The range of `long` / `time_t`. */
  predicate IsI64(x: int) {
    -TWO_63 <= x < TWO_63
  }

  /** The range of `short`. */
  predicate IsI16(x: int) {
    -TWO_15 <= x < TWO_15
  }

  /** Euclidean division of a non-negative dividend brackets it between consecutive multiples. */
  lemma EuclidFacts(a: int, d: int)
    requires a >= 0 && d > 0
    ensures 0 <= (a / d) * d <= a < (a / d) * d + d
  {
    var q := a / d;
    var r := a % d;
    assert a == d * q + r;
    assert 0 <= r < d;
    assert q >= 0;
    assert q * d >= 0;
  }

  /** C's `/` on signed operands: the quotient is truncated toward zero
      (Dafny's own `/` is Euclidean). */
  function TruncDiv(a: int, d: int): (q: int)
    requires d > 0
    ensures 0 <= a ==> 0 <= q * d <= a < q * d + d
    ensures a < 0 ==> a <= q * d <= 0 && q * d - a < d
  {
    if a >= 0 then
      EuclidFacts(a, d);
      a / d
    else
      EuclidFacts(-a, d);
      assert (-((-a) / d)) * d == -(((-a) / d) * d);
      -((-a) / d)
  }

  /** Truncating division commutes with negation, which Euclidean division does not. */
  lemma TruncDivOdd(a: int, d: int)
    requires d > 0
    ensures TruncDiv(-a, d) == -TruncDiv(a, d)
  {
  }

  /** The conversion of a (signed) integer to `unsigned long`: reduction modulo 2^64. */
  function ToU64(x: int): (r: U64)
    ensures 0 <= x < TWO_64 ==> r == x
    ensures -TWO_64 <= x < 0 ==> r == x + TWO_64
    ensures (x - r) % TWO_64 == 0
  {
    x % TWO_64
  }

  /** Reinterpreting 8 bytes as a two's-complement `long`. */
  function ToI64(u: U64): (x: int)
    ensures IsI64(x)
    ensures ToU64(x) == u
  {
    if u < TWO_63 then u else u - TWO_64
  }

  /** Two's-complement reinterpretation undoes the unsigned conversion on the `long` range. */
  lemma ToI64OfToU64(x: int)
    requires IsI64(x)
    ensures ToI64(ToU64(x)) == x
  {
  }

  /** 256^n, the number of values n bytes can hold. */
  function Pow256(n: nat): (p: nat)
    ensures p >= 1
  {
    if n == 0 then 1 else 256 * Pow256(n - 1)
  }

  lemma Pow256Widths()
    ensures Pow256(1) == TWO_8
    ensures Pow256(2) == TWO_16
    ensures Pow256(8) == TWO_64
  {
    assert Pow256(2) == TWO_16;
    assert Pow256(4) == 0x1_0000_0000;
    assert Pow256(6) == 0x1_0000_0000_0000;
    assert Pow256(8) == TWO_64;
  }

  /** The low n bytes of x, least significant first. */
  function LE(x: nat, n: nat): (bs: seq<Byte>)
    ensures |bs| == n
  {
    if n == 0 then [] else [x % 256] + LE(x / 256, n - 1)
  }

  /** The unsigned value of a little-endian byte string. */
  function FromLE(bs: seq<Byte>): (x: nat)
    ensures x < Pow256(|bs|)
  {
    if |bs| == 0 then 0 else bs[0] + 256 * FromLE(bs[1..])
  }

  /** Reading back n little-endian bytes recovers every value that fits in them. */
  lemma {:induction false} FromLEOfLE(x: nat, n: nat)
    requires x < Pow256(n)
    ensures FromLE(LE(x, n)) == x
  {
    if n > 0 {
      FromLEOfLE(x / 256, n - 1);
      assert LE(x, n)[1..] == LE(x / 256, n - 1);
    }
  }

  /** Every byte string is the encoding, at its own length, of the value it
      reads as; so reading is injective on strings of one length. */
  lemma {:induction false} LEOfFromLE(bs: seq<Byte>)
    ensures LE(FromLE(bs), |bs|) == bs
  {
    if |bs| > 0 {
      LEOfFromLE(bs[1..]);
      assert (bs[0] + 256 * FromLE(bs[1..])) / 256 == FromLE(bs[1..]);
    }
  }

  function EncodeU64(x: U64): (bs: seq<Byte>)
    ensures |bs| == 8
  {
    LE(x, 8)
  }

  function DecodeU64(bs: seq<Byte>): (x: U64)
    requires |bs| == 8
  {
    Pow256Widths();
    FromLE(bs)
  }

  lemma DecodeEncodeU64(x: U64)
    ensures DecodeU64(EncodeU64(x)) == x
  {
    Pow256Widths();
    FromLEOfLE(x, 8);
  }

  /** A `long` (two's complement, 8 bytes). */
  function EncodeI64(x: int): (bs: seq<Byte>)
    requires IsI64(x)
    ensures |bs| == 8
  {
    EncodeU64(ToU64(x))
  }

  function DecodeI64(bs: seq<Byte>): (x: int)
    requires |bs| == 8
    ensures IsI64(x)
  {
    ToI64(DecodeU64(bs))
  }

  lemma DecodeEncodeI64(x: int)
    requires IsI64(x)
    ensures DecodeI64(EncodeI64(x)) == x
  {
    DecodeEncodeU64(ToU64(x));
    ToI64OfToU64(x);
  }

  /** A `short` (two's complement, 2 bytes). */
  function EncodeI16(x: int): (bs: seq<Byte>)
    requires IsI16(x)
    ensures |bs| == 2
  {
    LE(x % TWO_16, 2)
  }

  function DecodeI16(bs: seq<Byte>): (x: int)
    requires |bs| == 2
    ensures IsI16(x)
  {
    Pow256Widths();
    var u := FromLE(bs);
    if u < TWO_15 then u else u - TWO_16
  }

  lemma DecodeEncodeI16(x: int)
    requires IsI16(x)
    ensures DecodeI16(EncodeI16(x)) == x
  {
    Pow256Widths();
    FromLEOfLE(x % TWO_16, 2);
  }
}
