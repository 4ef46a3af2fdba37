/** Fixed-width integers and length prefixes, as the signing layouts write them. */
module ByteLayout {
  type Byte = x: int | 0 <= x < 256

  type Bytes = seq<Byte>

  /** Text as its UTF-8 bytes. */
  type Text = seq<Byte>

  function Pow256(width: nat): nat {
    if width == 0 then 1 else 256 * Pow256(width - 1)
  }

  /** The low `width` bytes of n, most significant first; a narrowing cast is the truncation. */
  function BigEndian(n: nat, width: nat): (b: Bytes)
    ensures |b| == width
  {
    if width == 0 then [] else BigEndian(n / 256, width - 1) + [n % 256]
  }

  function LittleEndian(n: nat, width: nat): (b: Bytes)
    ensures |b| == width
  {
    if width == 0 then [] else [n % 256] + LittleEndian(n / 256, width - 1)
  }

  const TWO32: nat := 0x1_0000_0000
  const TWO63: int := 0x8000_0000_0000_0000
  const TWO64: nat := 0x1_0000_0000_0000_0000

  lemma Widths()
    ensures Pow256(4) == TWO32 && Pow256(8) == TWO64
  {
    assert Pow256(2) == 65536;
    assert Pow256(4) == 256 * (256 * Pow256(2));
    assert Pow256(6) == 256 * (256 * Pow256(4));
    assert Pow256(8) == 256 * (256 * Pow256(6));
  }

  lemma {:induction false} BigEndianInjective(m: nat, n: nat, width: nat)
    requires m < Pow256(width) && n < Pow256(width)
    requires BigEndian(m, width) == BigEndian(n, width)
    ensures m == n
  {
    if width == 0 {
    } else {
      var x, y := BigEndian(m / 256, width - 1), BigEndian(n / 256, width - 1);
      assert (x + [m % 256])[..width - 1] == x && (y + [n % 256])[..width - 1] == y;
      assert (x + [m % 256])[width - 1] == m % 256 && (y + [n % 256])[width - 1] == n % 256;
      BigEndianInjective(m / 256, n / 256, width - 1);
    }
  }

  lemma {:induction false} LittleEndianInjective(m: nat, n: nat, width: nat)
    requires m < Pow256(width) && n < Pow256(width)
    requires LittleEndian(m, width) == LittleEndian(n, width)
    ensures m == n
  {
    if width == 0 {
    } else {
      var x, y := LittleEndian(m / 256, width - 1), LittleEndian(n / 256, width - 1);
      assert ([m % 256] + x)[1..] == x && ([n % 256] + y)[1..] == y;
      assert ([m % 256] + x)[0] == m % 256 && ([n % 256] + y)[0] == n % 256;
      LittleEndianInjective(m / 256, n / 256, width - 1);
    }
  }

  predicate InI64(x: int) {
    -TWO63 <= x < TWO63
  }

  /** Two's-complement encoding of a signed 64-bit integer. */
  function I64(x: int): Bytes
    requires InI64(x)
  {
    BigEndian(if x < 0 then x + TWO64 else x, 8)
  }

  lemma I64Injective(x: int, y: int)
    requires InI64(x) && InI64(y) && I64(x) == I64(y)
    ensures x == y
  {
    Widths();
    BigEndianInjective(if x < 0 then x + TWO64 else x, if y < 0 then y + TWO64 else y, 8);
  }

  /** push_lp: a 32-bit big-endian length, then the bytes. */
  function Prefixed(b: Bytes): Bytes {
    BigEndian(|b|, 4) + b
  }

  /** Sequences with a common known split agree part by part. */
  lemma SplitEqual<T>(a: seq<T>, x: seq<T>, b: seq<T>, y: seq<T>)
    requires |a| == |b| && a + x == b + y
    ensures a == b && x == y
  {
    assert a == (a + x)[..|a|] && b == (b + y)[..|b|];
    assert x == (a + x)[|a|..] && y == (b + y)[|b|..];
  }

  lemma PrefixedDecodes(a: Bytes, x: Bytes, b: Bytes, y: Bytes)
    requires |a| < TWO32 && |b| < TWO32 && Prefixed(a) + x == Prefixed(b) + y
    ensures a == b && x == y
  {
    Widths();
    assert Prefixed(a) + x == BigEndian(|a|, 4) + (a + x);
    assert Prefixed(b) + y == BigEndian(|b|, 4) + (b + y);
    SplitEqual(BigEndian(|a|, 4), a + x, BigEndian(|b|, 4), b + y);
    BigEndianInjective(|a|, |b|, 4);
    SplitEqual(a, x, b, y);
  }
}
