/** Bytes and the 4-byte child count, as BitConverter lays out an int on a little-endian host. */
module Bytes {

  newtype byte = x: int | 0 <= x < 256

  const TwoTo31: int := 0x8000_0000
  const TwoTo32: int := 0x1_0000_0000

  /** The values of a C# int. */
  type int32 = x: int | -TwoTo31 <= x < TwoTo31

  /** Unchecked C# int arithmetic: the result wraps around modulo 2^32. */
  function Wrap32(x: int): (r: int32)
    ensures (r - x) % TwoTo32 == 0
    ensures -TwoTo31 <= x < TwoTo31 ==> r == x
  {
    (x + TwoTo31) % TwoTo32 - TwoTo31
  }

  /** The unsigned value of four bytes, least significant first. */
  function Unsigned32(bs: seq<byte>): (u: int)
    requires |bs| == 4
    ensures 0 <= u < TwoTo32
  {
    bs[0] as int + 256 * (bs[1] as int + 256 * (bs[2] as int + 256 * bs[3] as int))
  }

  /** Splitting a number into its low byte and the rest. */
  lemma SplitByte(x: int, a: int, q: int)
    requires 0 <= a < 256 && x == a + 256 * q
    ensures x % 256 == a && x / 256 == q
  {
  }

  /** BitConverter.ToInt32: four little-endian bytes read as a two's-complement int. */
  function Int32FromLE(bs: seq<byte>): (n: int)
    requires |bs| == 4
    ensures -TwoTo31 <= n < TwoTo31
    ensures n >= 0 <==> bs[3] < 128
  {
    var u := Unsigned32(bs);
    if u < TwoTo31 then u else u - TwoTo32
  }

  /** BitConverter.GetBytes(int): the low 32 bits of n, least significant byte first. */
  function Int32ToLE(n: int): (bs: seq<byte>)
    ensures |bs| == 4
    ensures Unsigned32(bs) == n % TwoTo32
  {
    var u := n % TwoTo32;
    var u1 := u / 256;
    var u2 := u1 / 256;
    assert u2 / 256 < 256;
    [(u % 256) as byte, (u1 % 256) as byte, (u2 % 256) as byte, (u2 / 256) as byte]
  }

  /** Writing an int and reading it back gives the int. */
  lemma Int32RoundTrip(n: int)
    requires -TwoTo31 <= n < TwoTo31
    ensures Int32FromLE(Int32ToLE(n)) == n
  {
    var u := Unsigned32(Int32ToLE(n));
    assert u == n % TwoTo32;
    if n < 0 {
      assert n % TwoTo32 == n + TwoTo32;
    }
  }

  /** Reading four bytes and writing the int back gives the same four bytes. */
  lemma {:induction false} LERoundTrip(bs: seq<byte>)
    requires |bs| == 4
    ensures Int32ToLE(Int32FromLE(bs)) == bs
  {
    var n := Int32FromLE(bs);
    var u := Unsigned32(bs);
    assert n % TwoTo32 == u;
    var cs := Int32ToLE(n);
    assert Unsigned32(cs) == u;
    UnsignedInjective(cs, bs);
  }

  lemma UnsignedInjective(a: seq<byte>, b: seq<byte>)
    requires |a| == 4 && |b| == 4 && Unsigned32(a) == Unsigned32(b)
    ensures a == b
  {
    var u := Unsigned32(a);
    var ra := a[1] as int + 256 * (a[2] as int + 256 * a[3] as int);
    var rb := b[1] as int + 256 * (b[2] as int + 256 * b[3] as int);
    SplitByte(u, a[0] as int, ra);
    SplitByte(u, b[0] as int, rb);
    var sa := a[2] as int + 256 * a[3] as int;
    var sb := b[2] as int + 256 * b[3] as int;
    SplitByte(ra, a[1] as int, sa);
    SplitByte(rb, b[1] as int, sb);
    SplitByte(sa, a[2] as int, a[3] as int);
    SplitByte(sb, b[2] as int, b[3] as int);
  }
}
