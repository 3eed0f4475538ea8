/** Bytes, 32-bit words and their two byte orders. */
module Bytes {
  const TWO32: int := 0x1_0000_0000

  type byte = x: int | 0 <= x < 256
  type u32 = x: int | 0 <= x < 0x1_0000_0000

  /** Truncation to 32 bits, as unsigned machine arithmetic does it. */
  function U32(x: int): u32 {
    x % 0x1_0000_0000
  }

  function Le32(x: u32): (bs: seq<byte>)
    ensures |bs| == 4
  {
    [x % 256, x / 256 % 256, x / 65536 % 256, x / 16777216]
  }

  function Be32(x: u32): (bs: seq<byte>)
    ensures |bs| == 4
  {
    [x / 16777216, x / 65536 % 256, x / 256 % 256, x % 256]
  }

  function FromLe32(bs: seq<byte>): u32
    requires |bs| == 4
  {
    bs[0] as int + 256 * bs[1] as int + 65536 * bs[2] as int + 16777216 * bs[3] as int
  }

  function FromBe32(bs: seq<byte>): u32
    requires |bs| == 4
  {
    16777216 * bs[0] as int + 65536 * bs[1] as int + 256 * bs[2] as int + bs[3] as int
  }

  /** The four base-256 digits of a word. */
  lemma Digits(x: u32)
    ensures x == x % 256 + 256 * (x / 256 % 256) + 65536 * (x / 65536 % 256) + 16777216 * (x / 16777216)
  {
    var q := x / 256;
    assert q / 256 == x / 65536;
    assert q / 256 / 256 == x / 16777216;
    assert q == q % 256 + 256 * (q / 256);
  }

  lemma WordRoundTrip(x: u32)
    ensures FromLe32(Le32(x)) == x
    ensures FromBe32(Be32(x)) == x
  {
    Digits(x);
    var d0, d1, d2, d3 := x % 256, x / 256 % 256, x / 65536 % 256, x / 16777216;
    assert Le32(x) == [d0, d1, d2, d3] && Be32(x) == [d3, d2, d1, d0];
  }

  /** A slice of a slice. */
  lemma Within(data: seq<byte>, p: nat, q: nat, a: nat, b: nat)
    requires p <= q <= |data| && a <= b <= q - p
    ensures data[p..q][a..b] == data[p + a..p + b]
  {
    var s, t := data[p..q][a..b], data[p + a..p + b];
    assert |s| == |t|;
    assert forall i :: 0 <= i < |s| ==> s[i] == t[i];
  }

  /** Bit p (a power of two) of the exclusive or of a and b. */
  function XorBit(a: nat, b: byte, p: nat): (r: nat)
    requires p > 0
    ensures r == 0 || r == p
  {
    if a / p % 2 == b / p % 2 then 0 else p
  }

  function XorLow(a: nat, b: byte): (r: nat)
    ensures r < 256
  {
    XorBit(a, b, 1) + XorBit(a, b, 2) + XorBit(a, b, 4) + XorBit(a, b, 8)
    + XorBit(a, b, 16) + XorBit(a, b, 32) + XorBit(a, b, 64) + XorBit(a, b, 128)
  }

  /** Exclusive or of a word with a byte: the upper 24 bits stay. */
  function XorByte(h: u32, b: byte): u32 {
    assert h - h % 256 <= TWO32 - 256;
    h - h % 256 + XorLow(h % 256, b)
  }
}
