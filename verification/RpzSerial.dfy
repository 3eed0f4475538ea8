/** Serial number arithmetic on 32-bit words (RFC 1982, section 3.2). */
module RpzSerial {
  import opened Bytes

  const HALF: int := 0x8000_0000

  /** Whether serial a is newer than serial b; the difference wraps at 32 bits. */
  predicate SerialGreater(a: u32, b: u32) {
    var diff := U32(a - b);
    diff != 0 && diff < HALF
  }

  /** How far the target lies ahead of a serial, going forward around the circle. */
  function Distance(from: u32, target: u32): u32 {
    U32(target - from)
  }

  /** Apart from opposite serials, of two different serials exactly one is newer. */
  lemma Comparable(a: u32, b: u32)
    requires a != b
    ensures SerialGreater(a, b) ==> !SerialGreater(b, a)
    ensures !SerialGreater(a, b) && !SerialGreater(b, a) <==> Distance(a, b) == HALF
  {
  }

  /** Of two steps forward the whole is a step forward if and only if together they go less than half around. */
  lemma TransitiveExactly(a: u32, b: u32, c: u32)
    requires SerialGreater(b, a) && SerialGreater(c, b)
    ensures SerialGreater(c, a) <==> Distance(a, b) + Distance(b, c) < HALF
  {
    hide U32;
    DistanceIs(a, b);
    DistanceIs(b, c);
    DistanceIs(a, c);
  }

  lemma DistanceIs(a: u32, b: u32)
    ensures Distance(a, b) == if a <= b then b - a else b - a + TWO32
    ensures SerialGreater(b, a) <==> 0 < Distance(a, b) < HALF
  {
  }

  /** So the comparison is not transitive: three steps forward can come back around. */
  lemma NotTransitive()
    ensures SerialGreater(0x6000_0000, 0) && SerialGreater(0xC000_0000, 0x6000_0000)
    ensures !SerialGreater(0xC000_0000, 0) && SerialGreater(0, 0xC000_0000)
  {
    assert U32(0 - 0xC000_0000) == 0x4000_0000;
  }

  /** A forward step that does not pass a newer target brings the target strictly nearer. */
  lemma StepNearer(from: u32, to: u32, target: u32)
    requires SerialGreater(target, from) && SerialGreater(to, from)
    requires to == target || SerialGreater(target, to)
    ensures Distance(to, target) < Distance(from, target) < HALF
  {
  }
}
