/** The compiled ASN table: its inputs, the names it shares, its bytes, and the file a build leaves. */
module AsnTable {
  import opened Basics
  import opened Bytes
  import opened AsnSweep

  type bytes = seq<byte>

  /**
   * One line of the input after text parsing: the address and prefix length of its network, the
   * text of its AS field, the number in it, and its AS name. A part that does not parse is None.
   */
  datatype Row = Row(net: Option<(int, int)>, asnText: bytes, asn: Option<int>, name: bytes)

  /** An address block with the AS number and name it stands for. */
  datatype Source = Source(ip: int, mask: int, asn: int, name: bytes)

  function Ascii(s: string): (r: bytes)
    ensures |r| == |s|
  {
    seq(|s|, i requires 0 <= i < |s| => (s[i] as int) % 256)
  }

  /** The private blocks every table starts with. */
  const PRIVATE: seq<Source> := [
    Source(127 * 0x100_0000, 8, 127, Ascii("Localhost Loopback")),
    Source(10 * 0x100_0000, 8, 64512, Ascii("Private LAN")),
    Source(172 * 0x100_0000 + 16 * 0x1_0000, 12, 64512, Ascii("Private LAN")),
    Source(192 * 0x100_0000 + 168 * 0x1_0000, 16, 64512, Ascii("Private LAN"))]

  /** What a line contributes: nothing unless both fields parse; an empty name becomes the AS text. */
  function SourceOf(row: Row): Option<Source> {
    if row.net.Some? && row.asn.Some? && row.net.value.1 <= 32
    then Some(Source(row.net.value.0, row.net.value.1, row.asn.value, if row.name == [] then row.asnText else row.name))
    else None
  }

  function Sources(rows: seq<Row>): (r: seq<Source>)
    ensures forall i :: 0 <= i < |r| ==> r[i].mask <= 32
  {
    if rows == [] then PRIVATE
    else
      var last := SourceOf(rows[|rows| - 1]);
      if last.Some? then Sources(rows[..|rows| - 1]) + [last.value] else Sources(rows[..|rows| - 1])
  }

  /** Address x shares the first mask bits of the block's address. */
  predicate Matches(s: Source, x: u32)
    requires s.mask <= 32
  {
    x / BlockSize(s.mask) == (s.ip % TWO32) / BlockSize(s.mask)
  }

  /** Longest-prefix match: block i matches x, none matching is longer, ties go to the earliest. */
  ghost predicate LongestMatch(ss: seq<Source>, x: u32, i: nat)
    requires forall j :: 0 <= j < |ss| ==> ss[j].mask <= 32
  {
    && i < |ss| && Matches(ss[i], x)
    && forall j :: 0 <= j < |ss| && Matches(ss[j], x) ==>
        ss[j].mask < ss[i].mask || (ss[j].mask == ss[i].mask && i <= j)
  }

  /** The range of a block is the set of addresses with its prefix. */
  lemma CoversIsMatches(s: Source, tag: Tag, x: u32)
    requires s.mask <= 32 && tag.mask == s.mask
    ensures var (start, end) := CidrToRange(s.ip, s.mask).value;
            Covers(Entry(start, end, tag), x) <==> Matches(s, x)
  {
    hide Pow2;
    var low, host := s.ip % TWO32, BlockSize(s.mask);
    assert host >= 1;
    assert low - low % host == Times(low / host, host);
    var q, p := x / host, low / host;
    assert Times(q, host) <= x < Times(q, host) + host;
    if q < p {
      TimesMonotone(q + 1, p, host);
      assert Times(q + 1, host) == Times(q, host) + host;
    } else if p < q {
      TimesMonotone(p + 1, q, host);
      assert Times(p + 1, host) == Times(p, host) + host;
    }
  }

  // ---------------------------------------------------------------- names

  /** A name as the reader sees it: up to its first zero byte. */
  function UpToNul(bs: bytes): (r: bytes)
    ensures |r| <= |bs| && 0 !in r && r == bs[..|r|]
    ensures |r| < |bs| ==> bs[|r|] == 0
  {
    if bs == [] || bs[0] == 0 then [] else [bs[0]] + UpToNul(bs[1..])
  }

  /** The name at an offset of the name block. */
  function NameAt(block: bytes, off: nat): bytes {
    if off < |block| && 0 in block[off..] then UpToNul(block[off..]) else Ascii("Unknown")
  }

  /** The name, followed by a zero byte, is stored at this offset. */
  predicate StoredAt(block: bytes, off: nat, name: bytes) {
    off + |name| < |block| && block[off..off + |name|] == name && block[off + |name|] == 0
  }

  lemma {:induction false} UpToNulIgnoresRest(name: bytes, rest: bytes)
    ensures UpToNul(name + [0] + rest) == UpToNul(name)
  {
    if name == [] {
      assert (name + [0] + rest)[0] == 0;
    } else {
      UpToNulIgnoresRest(name[1..], rest);
      assert (name + [0] + rest)[1..] == name[1..] + [0] + rest;
    }
  }

  /** A stored name reads back up to its first zero byte. */
  lemma StoredReadsBack(block: bytes, off: nat, name: bytes)
    requires StoredAt(block, off, name)
    ensures NameAt(block, off) == UpToNul(name)
  {
    var tail := block[off..];
    var rest := tail[|name| + 1..];
    assert tail[..|name|] == name && tail[|name|] == 0;
    assert tail == name + [0] + rest;
    UpToNulIgnoresRest(name, rest);
  }

  lemma StoredStays(block: bytes, more: bytes, off: nat, name: bytes)
    requires StoredAt(block, off, name)
    ensures StoredAt(block + more, off, name)
  {
    assert (block + more)[off..off + |name|] == block[off..off + |name|];
  }

  /** Every known name is stored where the map says. */
  ghost predicate NamesStored(block: bytes, known: map<bytes, nat>) {
    forall n :: n in known ==> StoredAt(block, known[n], n)
  }

  /** Entry e is the range of block s, and its offset leads to the name of s. */
  ghost predicate EntryFor(block: bytes, s: Source, e: Entry) {
    && s.mask <= 32
    && CidrToRange(s.ip, s.mask) == Some((e.start, e.end))
    && e.tag.mask == s.mask && e.tag.asn == s.asn
    && StoredAt(block, e.tag.off, s.name)
  }

  ghost predicate EntriesFor(block: bytes, ss: seq<Source>, es: seq<Entry>) {
    |es| == |ss| && forall i :: 0 <= i < |ss| ==> EntryFor(block, ss[i], es[i])
  }

  lemma EntriesAligned(block: bytes, ss: seq<Source>, es: seq<Entry>)
    requires EntriesFor(block, ss, es)
    ensures AllAligned(es)
  {
    hide Aligned, CidrToRange;
    forall i | 0 <= i < |es| ensures Aligned(es[i]) {
      assert EntryFor(block, ss[i], es[i]);
      RangeAligned(ss[i].ip, es[i].tag);
    }
  }

  /** Adds one block: its name is appended only when it is new. */
  method AddSource(es: seq<Entry>, block: bytes, known: map<bytes, nat>, s: Source)
    returns (es2: seq<Entry>, block2: bytes, known2: map<bytes, nat>)
    requires s.mask <= 32 && NamesStored(block, known)
    ensures NamesStored(block2, known2)
    ensures |es2| == |es| + 1 && es2[..|es|] == es && EntryFor(block2, s, es2[|es|])
    ensures block2 == if s.name in known then block else block + s.name + [0]
  {
    var (start, end) := CidrToRange(s.ip, s.mask).value;
    block2, known2 := block, known;
    if s.name !in known {
      known2 := known[s.name := |block|];
      block2 := block + s.name + [0];
      assert block2[|block|..|block| + |s.name|] == s.name;
      assert block2 == block + (s.name + [0]);
      forall n | n in known ensures StoredAt(block2, known[n], n) {
        StoredStays(block, s.name + [0], known[n], n);
      }
    }
    es2 := es + [Entry(start, end, Tag(s.mask, s.asn, known2[s.name]))];
  }

  lemma EntriesExtend(block: bytes, block2: bytes, ss: seq<Source>, es: seq<Entry>, s: Source, es2: seq<Entry>)
    requires EntriesFor(block, ss, es)
    requires |es2| == |es| + 1 && es2[..|es|] == es && EntryFor(block2, s, es2[|es|])
    requires |block| <= |block2| && block2[..|block|] == block
    ensures EntriesFor(block2, ss + [s], es2)
  {
    assert block2 == block + block2[|block|..];
    forall i | 0 <= i < |ss| ensures EntryFor(block2, ss[i], es2[i]) {
      assert es2[i] == es2[..|es|][i];
      assert EntryFor(block, ss[i], es[i]);
      StoredStays(block, block2[|block|..], es[i].tag.off, ss[i].name);
    }
  }

  /** Reads all lines: one entry for each usable block, in order, after the private ones. */
  method Collect(rows: seq<Row>) returns (es: seq<Entry>, block: bytes)
    ensures EntriesFor(block, Sources(rows), es)
  {
    hide EntryFor;
    var known: map<bytes, nat> := map[];
    es, block := [], [];
    for i := 0 to |PRIVATE|
      invariant NamesStored(block, known) && EntriesFor(block, PRIVATE[..i], es)
    {
      ghost var es0, block0 := es, block;
      es, block, known := AddSource(es, block, known, PRIVATE[i]);
      EntriesExtend(block0, block, PRIVATE[..i], es0, PRIVATE[i], es);
      assert PRIVATE[..i] + [PRIVATE[i]] == PRIVATE[..i + 1];
    }
    assert PRIVATE[..|PRIVATE|] == PRIVATE;
    for i := 0 to |rows|
      invariant NamesStored(block, known) && EntriesFor(block, Sources(rows[..i]), es)
    {
      assert rows[..i + 1][..i] == rows[..i];
      var s := SourceOf(rows[i]);
      if s.Some? {
        ghost var es0, block0 := es, block;
        es, block, known := AddSource(es, block, known, s.value);
        EntriesExtend(block0, block, Sources(rows[..i]), es0, s.value, es);
      }
    }
    assert rows[..|rows|] == rows;
  }
}
