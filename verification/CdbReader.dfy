/** The panel's CDB lookup over arbitrary bytes, with its 32-bit arithmetic and bounds guards. */
module CdbReader {
  import opened Basics
  import opened Bytes
  import opened CdbFormat
  import opened Text
  import opened WireName

  /** Panic stands for a slice expression whose bounds are out of order. */
  datatype Answer = Found | NotFound | Panic

  function Le32At(data: seq<byte>, off: nat): u32 {
    if off + 4 > |data| then 0 else FromLe32(data[off..off + 4])
  }

  /** The slot probed at the i-th move; the sum is a 32-bit one. */
  function SlotAt(start: u32, i: nat, n: u32): (slot: nat)
    requires n > 0
    ensures slot < n
  {
    U32(start + i) % n
  }

  /** The probe loop from its i-th move on. */
  function Probe(data: seq<byte>, key: seq<byte>, h: u32, off: u32, n: u32, start: u32, i: nat): Answer
    requires n > 0
    decreases n - i
  {
    if i >= n then NotFound
    else
      var at := off + SlotAt(start, i, n) * 8;
      if at + 8 > |data| then NotFound
      else if Le32At(data, at) == 0 then NotFound
      else if Le32At(data, at) != h then Probe(data, key, h, off, n, start, i + 1)
      else
        match RecordIs(data, key, Le32At(data, at + 4))
        case NotFound => Probe(data, key, h, off, n, start, i + 1)
        case other => other
  }

  /** Compares the record at tpos with the key; lengths and offsets are 32-bit words that wrap. */
  function RecordIs(data: seq<byte>, key: seq<byte>, tpos: u32): Answer {
    if tpos + 8 > |data| then NotFound
    else
      var klen := Le32At(data, tpos);
      if tpos + 8 + klen > |data| then NotFound
      else
        var lo, hi := U32(tpos + 8), U32(tpos + 8 + klen);
        if lo > hi || hi > |data| then Panic
        else if data[lo..hi] == key then Found
        else NotFound
  }

  function LookupKey(data: seq<byte>, key: seq<byte>): Answer {
    if |data| < 2048 then NotFound else LookupHash(data, key, HashOf(key))
  }

  function LookupHash(data: seq<byte>, key: seq<byte>, h: u32): Answer {
    var off, n := Le32At(data, h % 256 * 8), Le32At(data, h % 256 * 8 + 4);
    if n == 0 || off + n * 8 > |data| then NotFound
    else Probe(data, key, h, off, n, h / 256 % n, 0)
  }

  function Lookup(data: seq<byte>, domain: text): Answer {
    match PanelKey(domain)
    case None => NotFound
    case Some(key) => LookupKey(data, key)
  }

  method CdbContainsDomain(data: seq<byte>, domain: text) returns (r: Answer)
    ensures r == Lookup(data, domain)
  {
    var wire := PanelWireDomainKey(domain);
    if wire.None? {
      return NotFound;
    }
    var key := wire.value;
    if |data| < 256 * 8 {
      return NotFound;
    }
    var h := WrappingHash(key);
    var idx := h % 256 * 8;
    var tableOff, slotCount := Le32At(data, idx), Le32At(data, idx + 4);
    if slotCount == 0 || tableOff + slotCount * 8 > |data| {
      return NotFound;
    }
    r := ProbeTable(data, key, h, tableOff, slotCount);
  }

  method ProbeTable(data: seq<byte>, key: seq<byte>, h: u32, tableOff: u32, slotCount: u32) returns (r: Answer)
    requires slotCount > 0
    ensures r == Probe(data, key, h, tableOff, slotCount, h / 256 % slotCount, 0)
  {
    var start := h / 256 % slotCount;
    var i := 0;
    while i < slotCount
      invariant 0 <= i <= slotCount
      invariant Probe(data, key, h, tableOff, slotCount, start, 0) == Probe(data, key, h, tableOff, slotCount, start, i)
    {
      var slot := SlotAt(start, i, slotCount);
      var off := tableOff + slot * 8;
      if off + 8 > |data| {
        return NotFound;
      }
      var th := Le32At(data, off);
      if th == 0 {
        return NotFound;
      }
      if th == h {
        r := RecordIs(data, key, Le32At(data, off + 4));
        if r != NotFound {
          return;
        }
      }
      i := i + 1;
    }
    r := NotFound;
  }

  method WrappingHash(key: seq<byte>) returns (h: u32)
    ensures h == HashOf(key)
  {
    h := 5381;
    for i := 0 to |key|
      invariant h == HashOf(key[..i])
    {
      assert key[..i + 1][..i] == key[..i];
      StepsAgree(h, key[i]);
      h := WrappingStep(h, key[i]);
    }
    assert key[..|key|] == key;
  }

  // ------------------------------------------------- arbitrary files

  /** A record of the file, at a position a 32-bit word can hold, whose key is exactly this one. */
  ghost predicate HasRecord(data: seq<byte>, key: seq<byte>, tpos: u32) {
    && tpos + 8 + |key| <= |data|
    && Le32At(data, tpos) == |key|
    && data[tpos + 8..tpos + 8 + |key|] == key
  }

  /** Where no sum wraps, as in every file below 2^32 bytes, the slice is in order. */
  lemma RecordIsExact(data: seq<byte>, key: seq<byte>, tpos: u32)
    requires tpos + 8 + Le32At(data, tpos) <= |data| ==> tpos + 8 + Le32At(data, tpos) < TWO32
    ensures RecordIs(data, key, tpos) == if HasRecord(data, key, tpos) then Found else NotFound
  {
    if tpos + 8 <= |data| {
      var klen := Le32At(data, tpos);
      if tpos + 8 + klen <= |data| {
        assert U32(tpos + 8) == tpos + 8 && U32(tpos + 8 + klen) == tpos + 8 + klen;
      }
    }
  }

  lemma {:induction false} ProbeSound(data: seq<byte>, key: seq<byte>, h: u32, off: u32, n: u32, start: u32, i: nat)
    requires |data| < TWO32 && n > 0
    ensures Probe(data, key, h, off, n, start, i) != Panic
    ensures Probe(data, key, h, off, n, start, i) == Found ==> h != 0 && exists tpos: u32 :: HasRecord(data, key, tpos)
    decreases n - i
  {
    if i < n {
      var at := off + SlotAt(start, i, n) * 8;
      if at + 8 <= |data| && Le32At(data, at) != 0 {
        RecordIsExact(data, key, Le32At(data, at + 4));
        ProbeSound(data, key, h, off, n, start, i + 1);
      }
    }
  }

  /** On every file below 2^32 bytes the lookup answers, and a hit is backed by a record holding the wire key. */
  lemma LookupTotal(data: seq<byte>, domain: text)
    requires |data| < TWO32
    ensures Lookup(data, domain) != Panic
    ensures Lookup(data, domain) == Found ==>
              PanelKey(domain).Some? && exists tpos: u32 :: HasRecord(data, PanelKey(domain).value, tpos)
  {
    if PanelKey(domain).Some? && |data| >= 2048 {
      var key := PanelKey(domain).value;
      var h := HashOf(key);
      var off, n := Le32At(data, h % 256 * 8), Le32At(data, h % 256 * 8 + 4);
      if n > 0 {
        ProbeSound(data, key, h, off, n, h / 256 % n, 0);
      }
    }
  }

  /** A file that is shorter than its header has no keys; in any other the table the key's hash selects is searched. */
  lemma HeaderNeeded(data: seq<byte>, key: seq<byte>)
    ensures |data| < 2048 ==> LookupKey(data, key) == NotFound
    ensures |data| >= 2048 ==>
              var p, n := Le32At(data, HashOf(key) % 256 * 8), Le32At(data, HashOf(key) % 256 * 8 + 4);
              LookupKey(data, key) ==
                if n == 0 || p + n * 8 > |data| then NotFound
                else Probe(data, key, HashOf(key), p, n, HashOf(key) / 256 % n, 0)
  {
    hide HashOf, Probe, Le32At;
  }
}
