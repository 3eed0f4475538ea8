/** What a built index answers, told by the lines of its input. */
module AsnRows {
  import opened Basics
  import opened Bytes
  import opened AsnSweep
  import opened AsnTable
  import opened AsnFile
  import opened AsnIndex

  /** The size of a block is 2 to the power of the bits its prefix leaves, at most 32. */
  lemma BlockSizes(mask: int)
    requires mask <= 32
    ensures BlockSize(32) == 1 && BlockSize(24) == 256 && BlockSize(16) == 65536 && BlockSize(8) == 16777216
    ensures mask <= 0 ==> BlockSize(mask) == 4294967296
    ensures 0 < mask ==> BlockSize(mask - 1) == 2 * BlockSize(mask)
  {
    Pow32();
    assert Pow2(8) == 256;
    Pow2Splits(8, 8);
    Pow2Splits(8, 16);
  }

  /** The address and the block's own address are equal but for the bits behind the prefix. */
  predicate InBlock(ip: int, mask: int, x: u32)
    requires mask <= 32
  {
    x / BlockSize(mask) == ip % 4294967296 / BlockSize(mask)
  }

  /** A line of which all parts parse. */
  predicate Usable(row: Row) {
    row.net.Some? && row.asn.Some? && row.net.value.1 <= 32
  }

  /** A usable line whose block holds the address. */
  predicate Hits(row: Row, x: u32) {
    Usable(row) && InBlock(row.net.value.0, row.net.value.1, x)
  }

  /** The name of a line: its AS name, or the text of its AS field when it has none. */
  function NameOf(row: Row): bytes {
    if |row.name| > 0 then row.name else row.asnText
  }

  /** The prefix length of the private block that holds the address, if one does. */
  function PrivateMask(x: u32): Option<int> {
    if x / 16777216 == 127 || x / 16777216 == 10 then Some(8)
    else if x / 1048576 == 172 * 16 + 1 then Some(12)
    else if x / 65536 == 192 * 256 + 168 then Some(16)
    else None
  }

  /** Line i decides: its block holds the address, no other line's block that does is longer, or as long and earlier. */
  ghost predicate Decides(rows: seq<Row>, x: u32, i: nat) {
    && i < |rows| && Hits(rows[i], x)
    && (PrivateMask(x).Some? ==> PrivateMask(x).value < rows[i].net.value.1)
    && forall j :: 0 <= j < |rows| && Hits(rows[j], x) ==>
         rows[j].net.value.1 < rows[i].net.value.1 || (rows[j].net.value.1 == rows[i].net.value.1 && i <= j)
  }

  /** No line's block is longer than the private one. */
  ghost predicate StaysPrivate(rows: seq<Row>, x: u32) {
    && PrivateMask(x).Some?
    && forall j :: 0 <= j < |rows| && Hits(rows[j], x) ==> rows[j].net.value.1 <= PrivateMask(x).value
  }

  ghost predicate Nowhere(rows: seq<Row>, x: u32) {
    PrivateMask(x).None? && forall j :: 0 <= j < |rows| ==> !Hits(rows[j], x)
  }

  // ---------------------------------------------------------------- lines and blocks

  /** Where line i stands among the blocks. */
  ghost function Place(rows: seq<Row>, i: nat): nat
    requires i <= |rows|
  {
    if i == 0 then 4 else Place(rows, i - 1) + if Usable(rows[i - 1]) then 1 else 0
  }

  /** The block of a usable line, as it stands in the list. */
  ghost predicate IsBlock(s: Source, row: Row) {
    && Usable(row) && s.ip == row.net.value.0 && s.mask == row.net.value.1
    && s.asn == row.asn.value && s.name == NameOf(row)
  }

  lemma {:induction false} PlaceUp(rows: seq<Row>, i: nat, j: nat)
    requires i <= j <= |rows|
    ensures Place(rows, i) <= Place(rows, j)
    ensures i < j && Usable(rows[i]) ==> Place(rows, i) < Place(rows, j)
  {
    hide Usable;
    if i < j {
      PlaceUp(rows, i, j - 1);
    }
  }

  lemma {:induction false} PlaceFront(rows: seq<Row>, n: nat, i: nat)
    requires i <= n <= |rows|
    ensures Place(rows[..n], i) == Place(rows, i)
  {
    hide Usable;
    if i > 0 {
      PlaceFront(rows, n, i - 1);
    }
  }

  /** Block k is that of some line. */
  ghost predicate FromLine(rows: seq<Row>, k: nat) {
    exists i :: 0 <= i < |rows| && Usable(rows[i]) && Place(rows, i) == k
  }

  /** The private blocks come first, then the block of each usable line, in order; nothing else. */
  lemma BlocksExactly(rows: seq<Row>)
    ensures 4 <= |Sources(rows)| == Place(rows, |rows|) && Sources(rows)[..4] == PRIVATE
    ensures forall i :: 0 <= i < |rows| && Usable(rows[i]) ==>
              Place(rows, i) < |Sources(rows)| && IsBlock(Sources(rows)[Place(rows, i)], rows[i])
    ensures forall k: nat :: 4 <= k < |Sources(rows)| ==> FromLine(rows, k)
  {
    hide IsBlock, Usable, Sources, FromLine;
    PlaceUp(rows, 0, |rows|);
    BlockCount(rows);
    forall i | 0 <= i < |rows| && Usable(rows[i])
      ensures Place(rows, i) < |Sources(rows)| && IsBlock(Sources(rows)[Place(rows, i)], rows[i])
    {
      PlaceUp(rows, i, |rows|);
      BlockAt(rows, i);
    }
    forall k: nat | 4 <= k < |Sources(rows)| ensures FromLine(rows, k) {
      LineOfBlock(rows, k);
    }
  }

  lemma {:induction false} BlockCount(rows: seq<Row>)
    ensures |Sources(rows)| == Place(rows, |rows|) >= 4 && Sources(rows)[..4] == PRIVATE
  {
    hide Usable, SourceOf;
    if rows == [] {
      assert PRIVATE[..4] == PRIVATE;
    } else {
      var n := |rows| - 1;
      BlockCount(rows[..n]);
      BlockOf(rows[n]);
      PlaceFront(rows, n, n);
    }
  }

  lemma {:induction false} BlockAt(rows: seq<Row>, i: nat)
    requires i < |rows| && Usable(rows[i])
    ensures Place(rows, i) < |Sources(rows)| && IsBlock(Sources(rows)[Place(rows, i)], rows[i])
    decreases |rows|
  {
    hide Usable, IsBlock;
    var n := |rows| - 1;
    BlockOf(rows[n]);
    BlockCount(rows[..n]);
    PlaceFront(rows, n, n);
    PlaceFront(rows, n, i);
    if i < n {
      BlockAt(rows[..n], i);
    }
  }

  lemma {:induction false} LineOfBlock(rows: seq<Row>, k: nat)
    requires 4 <= k < Place(rows, |rows|)
    ensures FromLine(rows, k)
    decreases |rows|
  {
    hide Usable;
    var n := |rows| - 1;
    if k < Place(rows, n) {
      PlaceFront(rows, n, n);
      LineOfBlock(rows[..n], k);
      var i :| 0 <= i < n && Usable(rows[..n][i]) && Place(rows[..n], i) == k;
      PlaceFront(rows, n, i);
      assert Usable(rows[i]) && Place(rows, i) == k;
    } else {
      assert Usable(rows[n]) && Place(rows, n) == k;
    }
  }

  lemma BlockOf(row: Row)
    ensures SourceOf(row).Some? <==> Usable(row)
    ensures Usable(row) ==> IsBlock(SourceOf(row).value, row)
  {
  }

  // ---------------------------------------------------------------- answers

  // Localhost Loopback
  const LOOPBACK: bytes := [76, 111, 99, 97, 108, 104, 111, 115, 116, 32, 76, 111, 111, 112, 98, 97, 99, 107]
  // Private LAN
  const LAN: bytes := [80, 114, 105, 118, 97, 116, 101, 32, 76, 65, 78]

  /** Number and name a private address is answered with. */
  function PrivateNetwork(x: u32): Answer {
    if x / 16777216 == 127 then Network(127, LOOPBACK) else Network(64512, LAN)
  }

  lemma LoopbackText()
    ensures Ascii("Localhost Loopback") == LOOPBACK && 0 !in LOOPBACK
  {
  }

  lemma LanText()
    ensures Ascii("Private LAN") == LAN && 0 !in LAN
  {
  }

  lemma PrivateNames()
    ensures UpToNul(PRIVATE[0].name) == LOOPBACK
    ensures forall k :: 1 <= k < 4 ==> UpToNul(PRIVATE[k].name) == LAN
  {
    hide UpToNul, Ascii, LOOPBACK, LAN;
    LoopbackText();
    LanText();
    NoZero(LOOPBACK);
    NoZero(LAN);
  }

  lemma {:induction false} NoZero(name: bytes)
    ensures 0 !in name ==> UpToNul(name) == name
  {
    if name != [] {
      NoZero(name[1..]);
      assert [name[0]] + name[1..] == name;
    }
  }

  /** The private block that holds the address, and what it says. */
  lemma PrivateBlocks(x: u32)
    ensures forall k :: 0 <= k < 4 && Matches(PRIVATE[k], x) ==>
              PrivateMask(x) == Some(PRIVATE[k].mask)
              && PrivateNetwork(x) == Network(PRIVATE[k].asn, UpToNul(PRIVATE[k].name))
    ensures PrivateMask(x).Some? ==> exists k :: 0 <= k < 4 && Matches(PRIVATE[k], x)
    ensures forall j, k :: 0 <= j < k < 4 && Matches(PRIVATE[j], x) ==> !Matches(PRIVATE[k], x)
  {
    hide BlockSize, UpToNul, Ascii, Matches, LOOPBACK, LAN;
    PrivateNames();
    PrivateMatches(x);
  }

  lemma PrivateMatches(x: u32)
    ensures Matches(PRIVATE[0], x) <==> x / 16777216 == 127
    ensures Matches(PRIVATE[1], x) <==> x / 16777216 == 10
    ensures Matches(PRIVATE[2], x) <==> x / 1048576 == 172 * 16 + 1
    ensures Matches(PRIVATE[3], x) <==> x / 65536 == 192 * 256 + 168
  {
    hide Matches, Ascii;
    LoopbackMatches(x);
    TenMatches(x);
    TwelveMatches(x);
    SixteenMatches(x);
  }

  lemma LoopbackMatches(x: u32)
    ensures Matches(PRIVATE[0], x) <==> x / 16777216 == 127
  {
    hide BlockSize, Ascii;
    BlockSizes(8);
  }

  lemma TenMatches(x: u32)
    ensures Matches(PRIVATE[1], x) <==> x / 16777216 == 10
  {
    hide BlockSize, Ascii;
    BlockSizes(8);
  }

  lemma TwelveMatches(x: u32)
    ensures Matches(PRIVATE[2], x) <==> x / 1048576 == 172 * 16 + 1
  {
    hide BlockSize, Ascii;
    TwelveBits();
  }

  lemma SixteenMatches(x: u32)
    ensures Matches(PRIVATE[3], x) <==> x / 65536 == 192 * 256 + 168
  {
    hide BlockSize, Ascii;
    BlockSizes(8);
  }

  lemma TwelveBits()
    ensures BlockSize(12) == 1048576
  {
    BlockSizes(16);
    BlockSizes(15);
    BlockSizes(14);
    BlockSizes(13);
  }

  /** The blocks that hold an address are the private one and those of the lines that do. */
  lemma MatchesExactly(rows: seq<Row>, x: u32, k: nat)
    requires k < |Sources(rows)|
    ensures k < 4 ==> Sources(rows)[k] == PRIVATE[k]
    ensures k >= 4 && Matches(Sources(rows)[k], x) ==>
              exists i :: 0 <= i < |rows| && Place(rows, i) == k && Hits(rows[i], x)
    ensures forall i :: 0 <= i < |rows| && Usable(rows[i]) && Place(rows, i) == k ==>
              k >= 4 && IsBlock(Sources(rows)[k], rows[i]) && (Matches(Sources(rows)[k], x) <==> Hits(rows[i], x))
  {
    hide BlockSize, Sources, Usable, NameOf;
    BlocksExactly(rows);
    if k < 4 {
      assert Sources(rows)[k] == Sources(rows)[..4][k];
    } else {
      assert FromLine(rows, k);
    }
    forall i | 0 <= i < |rows| && Usable(rows[i]) && Place(rows, i) == k ensures k >= 4 {
      PlaceUp(rows, 0, i);
    }
  }

  /** An answer of longest-prefix match is that of the one longest match. */
  lemma AnswerOfLongest(ss: seq<Source>, x: u32, r: Answer, k: nat)
    requires forall j :: 0 <= j < |ss| ==> ss[j].mask <= 32
    requires IsLongestPrefixAnswer(ss, x, r) && LongestMatch(ss, x, k)
    ensures r == Network(ss[k].asn, UpToNul(ss[k].name))
  {
    hide Matches, UpToNul;
    if r.Network? {
      var i: nat :| LongestMatch(ss, x, i) && r.asn == ss[i].asn && r.name == UpToNul(ss[i].name);
      assert i == k;
    }
  }

  lemma DecidesLongest(rows: seq<Row>, x: u32, i: nat)
    requires Decides(rows, x, i)
    ensures LongestMatch(Sources(rows), x, Place(rows, i))
    ensures IsBlock(Sources(rows)[Place(rows, i)], rows[i])
  {
    hide Sources, Matches, InBlock, NameOf, PrivateMask;
    var ss, p := Sources(rows), Place(rows, i);
    BlocksExactly(rows);
    MatchesExactly(rows, x, p);
    PrivateBlocks(x);
    forall k: nat | k < |ss| && Matches(ss[k], x)
      ensures ss[k].mask < ss[p].mask || (ss[k].mask == ss[p].mask && p <= k)
    {
      MatchesExactly(rows, x, k);
      if k >= 4 {
        var j :| 0 <= j < |rows| && Place(rows, j) == k && Hits(rows[j], x);
        if i <= j {
          PlaceUp(rows, i, j);
        }
      }
    }
  }

  lemma PrivateLongest(rows: seq<Row>, x: u32) returns (p: nat)
    requires StaysPrivate(rows, x)
    ensures p < 4 && Matches(PRIVATE[p], x) && |Sources(rows)| >= 4 && Sources(rows)[p] == PRIVATE[p]
    ensures LongestMatch(Sources(rows), x, p)
  {
    hide Sources, Matches, InBlock, NameOf, PrivateMask, PrivateNetwork, UpToNul;
    var ss := Sources(rows);
    BlocksExactly(rows);
    PrivateBlocks(x);
    p :| p < 4 && Matches(PRIVATE[p], x);
    MatchesExactly(rows, x, p);
    forall k: nat | k < |ss| && Matches(ss[k], x)
      ensures ss[k].mask < ss[p].mask || (ss[k].mask == ss[p].mask && p <= k)
    {
      MatchesExactly(rows, x, k);
      if k >= 4 {
        var j :| 0 <= j < |rows| && Place(rows, j) == k && Hits(rows[j], x);
      }
    }
  }

  /**
   * The lines decide every answer of a built file, whatever was loaded before. A line whose block holds
   * the address, none other being longer or as long and earlier, private blocks included, is answered
   * with its number and its name; else a private address with the number and name of its private block;
   * and an address in no block with nothing.
   */
  lemma LinesDecide(rows: seq<Row>, f: bytes, before: State, x: u32)
    requires Built(Sources(rows), f)
    ensures var r := LookupOf(LoadInto(before, Some(f)), x);
            && (forall i: nat :: Decides(rows, x, i) ==> r == Network(rows[i].asn.value, UpToNul(NameOf(rows[i]))))
            && (StaysPrivate(rows, x) ==> r == PrivateNetwork(x))
            && (Nowhere(rows, x) ==> r == Nobody)
  {
    hide Sources, Built, LoadInto, LookupOf, Matches, StaysPrivate, NameOf, PrivateMask, PrivateNetwork;
    hide UpToNul, InBlock;
    var r, ss := LookupOf(LoadInto(before, Some(f)), x), Sources(rows);
    LongestPrefixMatch(rows, f, before, x);
    forall i: nat | Decides(rows, x, i) ensures r == Network(rows[i].asn.value, UpToNul(NameOf(rows[i]))) {
      DecidesLongest(rows, x, i);
      AnswerOfLongest(ss, x, r, Place(rows, i));
    }
    if StaysPrivate(rows, x) {
      var p := PrivateLongest(rows, x);
      PrivateBlocks(x);
      AnswerOfLongest(ss, x, r, p);
    }
    if Nowhere(rows, x) {
      forall k: nat | k < |ss| ensures !Matches(ss[k], x) {
        MatchesExactly(rows, x, k);
        PrivateBlocks(x);
      }
    }
  }

  /** For every address one of these is the case. */
  lemma OneDecides(rows: seq<Row>, x: u32)
    ensures (exists i: nat :: Decides(rows, x, i)) || StaysPrivate(rows, x) || Nowhere(rows, x)
  {
    hide Sources, Matches, PrivateMask, InBlock;
    if exists j :: 0 <= j < |rows| && Hits(rows[j], x) {
      var i := BestLine(rows, x, |rows|);
      if PrivateMask(x).None? || PrivateMask(x).value < rows[i].net.value.1 {
        assert Decides(rows, x, i);
      }
    }
  }

  lemma {:induction false} BestLine(rows: seq<Row>, x: u32, n: nat) returns (i: nat)
    requires n <= |rows| && exists j :: 0 <= j < n && Hits(rows[j], x)
    ensures i < n && Hits(rows[i], x)
    ensures forall j :: 0 <= j < n && Hits(rows[j], x) ==>
              rows[j].net.value.1 < rows[i].net.value.1 || (rows[j].net.value.1 == rows[i].net.value.1 && i <= j)
    decreases n
  {
    hide InBlock;
    if exists j :: 0 <= j < n - 1 && Hits(rows[j], x) {
      i := BestLine(rows, x, n - 1);
      if Hits(rows[n - 1], x) && rows[n - 1].net.value.1 > rows[i].net.value.1 {
        i := n - 1;
      }
    } else {
      i := n - 1;
    }
  }

  /** A line with a part missing changes no answer. */
  lemma UnusableIgnored(rows: seq<Row>, i: nat, f: bytes, g: bytes, before: State, x: u32)
    requires i < |rows| && !Usable(rows[i])
    requires Built(Sources(rows), f) && Built(Sources(rows[..i] + rows[i + 1..]), g)
    ensures LookupOf(LoadInto(before, Some(f)), x) == LookupOf(LoadInto(before, Some(g)), x)
  {
    hide Sources, Built, LoadInto, LookupOf, Usable;
    var less := rows[..i] + rows[i + 1..];
    Unchanged(rows, i);
    LongestPrefixMatch(rows, f, before, x);
    LongestPrefixMatch(less, g, before, x);
    SameAnswer(Sources(rows), x, LookupOf(LoadInto(before, Some(f)), x), LookupOf(LoadInto(before, Some(g)), x));
  }

  lemma {:induction false} Unchanged(rows: seq<Row>, i: nat)
    requires i < |rows| && !Usable(rows[i])
    ensures Sources(rows[..i] + rows[i + 1..]) == Sources(rows)
    decreases |rows|
  {
    hide SourceOf, Usable;
    BlockOf(rows[i]);
    var n := |rows| - 1;
    var less := rows[..i] + rows[i + 1..];
    if i == n {
      assert less == rows[..n];
    } else {
      Unchanged(rows[..n], i);
      assert less[..|less| - 1] == rows[..n][..i] + rows[..n][i + 1..];
    }
  }

  lemma SameAnswer(ss: seq<Source>, x: u32, a: Answer, b: Answer)
    requires forall j :: 0 <= j < |ss| ==> ss[j].mask <= 32
    requires IsLongestPrefixAnswer(ss, x, a) && IsLongestPrefixAnswer(ss, x, b)
    ensures a == b
  {
    hide Matches, UpToNul;
    if a.Network? {
      var k: nat :| LongestMatch(ss, x, k) && a.asn == ss[k].asn && a.name == UpToNul(ss[k].name);
      AnswerOfLongest(ss, x, b, k);
    }
  }
}
