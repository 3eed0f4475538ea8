/** The bytes of a compiled table, and the whole build. */
module AsnFile {
  import opened Basics
  import opened Bytes
  import opened AsnSweep
  import opened AsnTable

  const MAGIC: bytes := Ascii("TASB")
  const ROW: nat := 17

  /** The interval's numbers fit the widths of a row. */
  predicate Packable(e: Entry) {
    && 0 <= e.start < TWO32 && 0 <= e.end < TWO32
    && 0 <= e.tag.asn < TWO32 && 0 <= e.tag.mask < 256 && e.tag.off < TWO32
  }

  predicate AllPackable(flat: seq<Entry>) {
    forall k :: 0 <= k < |flat| ==> Packable(flat[k])
  }

  function RowBytes(e: Entry): (r: bytes)
    requires Packable(e)
    ensures |r| == ROW
  {
    Be32(e.start) + Be32(e.end) + Be32(e.tag.asn) + [e.tag.mask as byte] + Be32(e.tag.off)
  }

  function RowsBytes(flat: seq<Entry>): (r: bytes)
    requires AllPackable(flat)
    ensures |r| == ROW * |flat|
  {
    if flat == [] then [] else RowsBytes(flat[..|flat| - 1]) + RowBytes(flat[|flat| - 1])
  }

  predicate Packs(flat: seq<Entry>, block: bytes) {
    |flat| < TWO32 && |block| < TWO32 && AllPackable(flat)
  }

  function Header(flat: seq<Entry>, block: bytes): (r: bytes)
    requires |flat| < TWO32 && |block| < TWO32
    ensures |r| == 12
  {
    MAGIC + Be32(|flat|) + Be32(|block|)
  }

  function Table(flat: seq<Entry>, block: bytes): bytes
    requires Packs(flat, block)
  {
    Header(flat, block) + RowsBytes(flat) + block
  }

  /** What a failed write leaves: it stops at the first number that does not fit its width. */
  ghost predicate Partial(flat: seq<Entry>, block: bytes, f: bytes) {
    || (f == MAGIC && |flat| >= TWO32)
    || (|flat| < TWO32 && f == MAGIC + Be32(|flat|) && |block| >= TWO32)
    || (|flat| < TWO32 && |block| < TWO32
        && exists k: nat :: k < |flat| && AllPackable(flat[..k]) && !Packable(flat[k])
                           && f == Header(flat, block) + RowsBytes(flat[..k]))
  }

  method WriteTable(flat: seq<Entry>, block: bytes) returns (ok: bool, f: bytes)
    ensures ok <==> Packs(flat, block)
    ensures ok ==> f == Table(flat, block)
    ensures !ok ==> Partial(flat, block, f)
  {
    hide RowsBytes, RowBytes, AllPackable, Packable;
    f := MAGIC;
    if |flat| >= TWO32 {
      return false, f;
    }
    f := f + Be32(|flat|);
    if |block| >= TWO32 {
      return false, f;
    }
    f := f + Be32(|block|);
    NoRow(flat);
    for k := 0 to |flat|
      invariant AllPackable(flat[..k]) && f == Header(flat, block) + RowsBytes(flat[..k])
    {
      if !Packable(flat[k]) {
        NotAll(flat, k);
        return false, f;
      }
      NextRow(flat, k);
      f := f + RowBytes(flat[k]);
    }
    assert flat[..|flat|] == flat;
    return true, f + block;
  }

  lemma NoRow(flat: seq<Entry>)
    ensures AllPackable(flat[..0]) && RowsBytes(flat[..0]) == []
  {
  }

  lemma NextRow(flat: seq<Entry>, k: nat)
    requires k < |flat| && AllPackable(flat[..k]) && Packable(flat[k])
    ensures AllPackable(flat[..k + 1]) && RowsBytes(flat[..k + 1]) == RowsBytes(flat[..k]) + RowBytes(flat[k])
  {
    hide RowBytes, Packable;
    assert flat[..k + 1] == flat[..k] + [flat[k]];
    assert flat[..k + 1][..k] == flat[..k];
  }

  lemma NotAll(flat: seq<Entry>, k: nat)
    requires k < |flat| && !Packable(flat[k])
    ensures !AllPackable(flat)
  {
  }

  /** Row k starts at byte 17 k. */
  lemma {:induction false} RowAt(flat: seq<Entry>, k: nat)
    requires AllPackable(flat) && k < |flat|
    ensures RowsBytes(flat)[ROW * k..ROW * k + ROW] == RowBytes(flat[k])
  {
    var front := flat[..|flat| - 1];
    if k < |flat| - 1 {
      RowAt(front, k);
      assert RowsBytes(front)[ROW * k..ROW * k + ROW] == RowsBytes(flat)[ROW * k..ROW * k + ROW];
    }
  }

  /** Number of the word at a byte offset, most significant byte first. */
  function WordAt(bs: bytes, at: nat): u32
    requires at + 4 <= |bs|
  {
    FromBe32(bs[at..at + 4])
  }

  /** The five numbers of one row. */
  function RowOf(bs: bytes): Entry
    requires |bs| == ROW
  {
    Entry(WordAt(bs, 0), WordAt(bs, 4), Tag(bs[12], WordAt(bs, 8), WordAt(bs, 13)))
  }

  lemma RowRoundTrip(e: Entry)
    requires Packable(e)
    ensures RowOf(RowBytes(e)) == e
    ensures WordAt(RowBytes(e), 0) == e.start
  {
    var r := RowBytes(e);
    assert r[0..4] == Be32(e.start);
    assert r[4..8] == Be32(e.end);
    assert r[8..12] == Be32(e.tag.asn);
    assert r[13..17] == Be32(e.tag.off);
    WordRoundTrip(e.start);
    WordRoundTrip(e.end);
    WordRoundTrip(e.tag.asn);
    WordRoundTrip(e.tag.off);
  }

  // ---------------------------------------------------------------- the build

  /** Entries for the blocks ss, and the intervals that flatten them. */
  ghost predicate TableFor(ss: seq<Source>, es: seq<Entry>, flat: seq<Entry>, block: bytes) {
    EntriesFor(block, ss, es) && Flattens(es, flat)
  }

  /** A complete table for the blocks ss. */
  ghost predicate Built(ss: seq<Source>, f: bytes) {
    exists es, flat, block :: TableFor(ss, es, flat, block) && Packs(flat, block) && f == Table(flat, block)
  }

  /** What a failed build left. */
  ghost predicate Broken(f: bytes) {
    exists flat, block :: Disjoint(flat) && Partial(flat, block, f)
  }

  /** Compiles the lines into a file; a number out of width raises in the middle of the file. */
  method Build(rows: seq<Row>) returns (ok: bool, f: bytes)
    ensures ok ==> Built(Sources(rows), f)
    ensures !ok ==> Broken(f)
  {
    hide EntriesFor, Packs, Partial, Described, Disjoint;
    var es, block := Collect(rows);
    EntriesAligned(block, Sources(rows), es);
    var flat := Sweep(es);
    ok, f := WriteTable(flat, block);
    assert TableFor(Sources(rows), es, flat, block);
  }

  /** The AS number and, up to a zero byte, the name of the longest match of x. */
  ghost predicate NamesLongest(ss: seq<Source>, x: u32, asn: int, name: bytes)
    requires forall j :: 0 <= j < |ss| ==> ss[j].mask <= 32
  {
    exists i: nat :: LongestMatch(ss, x, i) && asn == ss[i].asn && name == UpToNul(ss[i].name)
  }

  lemma EntryMatches(block: bytes, s: Source, e: Entry, x: u32)
    requires EntryFor(block, s, e)
    ensures Covers(e, x) <==> Matches(s, x)
  {
    CoversIsMatches(s, e.tag, x);
  }

  lemma BestIsLongest(ss: seq<Source>, es: seq<Entry>, block: bytes, x: u32, i: nat)
    requires EntriesFor(block, ss, es) && IsBest(es, x, i)
    requires forall j :: 0 <= j < |ss| ==> ss[j].mask <= 32
    ensures LongestMatch(ss, x, i) && es[i].tag.asn == ss[i].asn && NameAt(block, es[i].tag.off) == UpToNul(ss[i].name)
  {
    hide Covers, Matches, CidrToRange, NameAt, UpToNul, StoredAt;
    assert EntryFor(block, ss[i], es[i]);
    EntryMatches(block, ss[i], es[i], x);
    StoredReadsBack(block, es[i].tag.off, ss[i].name);
    forall j: nat | j < |ss| && Matches(ss[j], x)
      ensures ss[j].mask < ss[i].mask || (ss[j].mask == ss[i].mask && i <= j)
    {
      assert EntryFor(block, ss[j], es[j]);
      EntryMatches(block, ss[j], es[j], x);
    }
  }

  /** What an interval says of the addresses in it. */
  lemma IntervalNamesLongest(ss: seq<Source>, es: seq<Entry>, flat: seq<Entry>, block: bytes, x: u32, k: nat)
    requires TableFor(ss, es, flat, block) && k < |flat| && Covers(flat[k], x)
    requires forall j :: 0 <= j < |ss| ==> ss[j].mask <= 32
    ensures NamesLongest(ss, x, flat[k].tag.asn, NameAt(block, flat[k].tag.off))
  {
    hide Covers, EntriesFor, NameAt, Disjoint, UpToNul;
    assert Described(es, flat, x);
    var i: nat :| IsBest(es, x, i) && flat[k].tag == es[i].tag;
    BestIsLongest(ss, es, block, x, i);
  }

  /** An address some block matches lies in an interval. */
  lemma MatchedIsCovered(ss: seq<Source>, es: seq<Entry>, flat: seq<Entry>, block: bytes, x: u32, i: nat)
    requires TableFor(ss, es, flat, block) && i < |ss| && ss[i].mask <= 32 && Matches(ss[i], x)
    ensures exists k :: 0 <= k < |flat| && Covers(flat[k], x)
  {
    hide Covers, Matches, Disjoint;
    assert EntryFor(block, ss[i], es[i]);
    EntryMatches(block, ss[i], es[i], x);
    assert Described(es, flat, x);
  }

  /** The number four bytes stand for, highest byte first. */
  function Big(f: bytes, p: nat): nat
    requires p + 4 <= |f|
  {
    16777216 * f[p] as int + 65536 * f[p + 1] as int + 256 * f[p + 2] as int + f[p + 3] as int
  }

  lemma BigIs(f: bytes, p: nat, x: u32)
    requires p + 4 <= |f| && f[p..p + 4] == Be32(x)
    ensures Big(f, p) == x
  {
    Digits(x);
    var w := f[p..p + 4];
    assert w[0] == f[p] && w[1] == f[p + 1] && w[2] == f[p + 2] && w[3] == f[p + 3];
  }

  /** The five numbers of the row at byte p: first and last address, AS number, prefix length, place of the name. */
  ghost predicate RowBytesAt(f: bytes, p: nat, e: Entry) {
    && p + 17 <= |f|
    && Big(f, p) == e.start && Big(f, p + 4) == e.end && Big(f, p + 8) == e.tag.asn
    && f[p + 12] as int == e.tag.mask && Big(f, p + 13) == e.tag.off
  }

  lemma RowLies(f: bytes, p: nat, e: Entry)
    requires Packable(e) && p + 17 <= |f| && f[p..p + 17] == RowBytes(e)
    ensures RowBytesAt(f, p, e)
  {
    hide Big, Be32;
    var r := f[p..p + 17];
    assert r[0..4] == Be32(e.start) && r[4..8] == Be32(e.end) && r[8..12] == Be32(e.tag.asn);
    assert r[12] == e.tag.mask && r[13..17] == Be32(e.tag.off);
    Within(f, p, p + 17, 0, 4);
    Within(f, p, p + 17, 4, 8);
    Within(f, p, p + 17, 8, 12);
    Within(f, p, p + 17, 13, 17);
    BigIs(f, p, e.start);
    BigIs(f, p + 4, e.end);
    BigIs(f, p + 8, e.tag.asn);
    BigIs(f, p + 13, e.tag.off);
  }

  /**
   * A table byte by byte: the letters TASB, the number of rows and the size of the names, the rows of 17
   * bytes each in order, and the names.
   */
  lemma TableBytes(flat: seq<Entry>, block: bytes)
    requires Packs(flat, block)
    ensures var f := Table(flat, block);
            && |f| == 12 + 17 * |flat| + |block|
            && f[..4] == [84, 65, 83, 66] && Big(f, 4) == |flat| && Big(f, 8) == |block|
            && (forall k :: 0 <= k < |flat| ==> RowBytesAt(f, 12 + 17 * k, flat[k]))
            && f[12 + 17 * |flat|..] == block
  {
    hide RowsBytes, RowBytes, Big, Be32, Packable, RowBytesAt;
    var f, rows := Table(flat, block), RowsBytes(flat);
    assert f[..4] == MAGIC;
    MagicLetters();
    assert f[4..8] == Be32(|flat|) && f[8..12] == Be32(|block|);
    BigIs(f, 4, |flat|);
    BigIs(f, 8, |block|);
    forall k | 0 <= k < |flat| ensures RowBytesAt(f, 12 + 17 * k, flat[k]) {
      RowAt(flat, k);
      assert f[12 + 17 * k..12 + 17 * k + 17] == rows[17 * k..17 * k + 17];
      RowLies(f, 12 + 17 * k, flat[k]);
    }
  }

  lemma MagicLetters()
    ensures MAGIC == [84, 65, 83, 66]
  {
  }
}
