/** What the panel's reader finds in the files the generator writes. */
module CdbRoundTrip {
  import opened Basics
  import opened Bytes
  import opened CdbFormat
  import opened CdbReader
  import opened Text
  import opened WireName
  import CdbWriter

  ghost predicate HasKey(es: seq<Entry>, key: seq<byte>) {
    exists i :: 0 <= i < |es| && es[i].key == key
  }

  ghost predicate NoZeroHash(es: seq<Entry>) {
    forall i :: 0 <= i < |es| ==> HashOf(es[i].key) != 0
  }

  // ------------------------------------------------ reading one's own file

  lemma SubSlice(data: seq<byte>, a: nat, b: nat, off: nat, len: nat)
    requires a + off + len <= b <= |data|
    ensures data[a..b][off..off + len] == data[a + off..a + off + len]
  {
    var s, t := data[a..b][off..off + len], data[a + off..a + off + len];
    assert forall k :: 0 <= k < len ==> s[k] == data[a + off + k] && t[k] == data[a + off + k];
  }

  lemma WordReads(data: seq<byte>, a: nat, b: nat, off: nat, x: u32)
    requires a + off + 4 <= b <= |data|
    requires data[a..b][off..off + 4] == Le32(x)
    ensures Le32At(data, a + off) == x
  {
    SubSlice(data, a, b, off, 4);
    WordRoundTrip(x);
  }

  /** The header entry of a bucket reads back as its table position and slot count. */
  lemma HeaderReads(data: seq<byte>, rs: seq<Rec>, slot: nat)
    requires Fits(rs) && slot < SLOTS && HeaderOk(data, rs, slot)
    ensures Le32At(data, slot * 8) == TablePos(rs, slot)
    ensures Le32At(data, slot * 8 + 4) == |Bucket(rs, slot)|
  {
    PositionsFit(rs, slot);
    PairReads(data, 8 * slot, TablePos(rs, slot), |Bucket(rs, slot)|);
  }

  lemma PairReads(data: seq<byte>, a: nat, x: u32, y: u32)
    requires a + 8 <= |data| && data[a..a + 8] == Le32(x) + Le32(y)
    ensures Le32At(data, a) == x && Le32At(data, a + 4) == y
  {
    var bs := Le32(x) + Le32(y);
    assert bs[0..4] == Le32(x) && bs[4..8] == Le32(y);
    WordReads(data, a, a + 8, 0, x);
    WordReads(data, a, a + 8, 4, y);
  }

  /** The cell of slot k reads back as hash and position of the record placed there. */
  lemma CellReads(data: seq<byte>, rs: seq<Rec>, slot: nat, placed: seq<nat>, k: nat)
    requires TableHolds(data, rs, slot, placed) && k < |placed|
    ensures TablePos(rs, slot) + k * 8 + 8 <= |data|
    ensures placed[k] < |rs|
    ensures Le32At(data, TablePos(rs, slot) + k * 8) == rs[placed[k]].h
    ensures Le32At(data, TablePos(rs, slot) + k * 8 + 4) == RecPos(rs, placed[k])
  {
    var a, b := TablePos(rs, slot), TablePos(rs, slot + 1);
    assert CellAt(data[a..b], rs, placed, k);
    SubSlice(data, a, b, 8 * k, 8);
    PairReads(data, a + 8 * k, rs[placed[k]].h, RecPos(rs, placed[k]));
  }

  /** A stored record compares equal exactly with its own key. */
  lemma RecordReads(data: seq<byte>, rs: seq<Rec>, r: nat, key: seq<byte>)
    requires IsImage(data, rs) && r < |rs| && RecPos(rs, r) < TWO32
    ensures RecordIs(data, key, RecPos(rs, r)) == if rs[r].key == key then Found else NotFound
  {
    hide BucketUpTo;
    hide TablePos;
    hide RecordIs;
    assert RecordOk(data, rs, r);
    RecPosMonotone(rs, r + 1, |rs|);
    TablePosMonotone(rs, 0, 255);
    StoredRecord(data, RecPos(rs, r), RecPos(rs, r + 1), rs[r], key);
  }

  lemma StoredRecord(data: seq<byte>, p: u32, q: u32, r: Rec, key: seq<byte>)
    requires q == p + RecordSize(r) && q <= |data| && |r.key| < TWO32 && |r.val| < TWO32
    requires data[p..q] == RecordBytes(r)
    ensures RecordIs(data, key, p) == if r.key == key then Found else NotFound
  {
    var bs, klen := RecordBytes(r), |r.key|;
    assert bs[0..4] == Le32(klen) && bs[8..8 + klen] == r.key;
    WordReads(data, p, q, 0, klen);
    SubSlice(data, p, q, 8, klen);
    RecordIsExact(data, key, p);
  }

  /** Some slot of the round from move i on holds the key. */
  ghost predicate KeyAhead(rs: seq<Rec>, placed: seq<nat>, key: seq<byte>, start: nat, i: nat)
    requires |placed| > 0
  {
    exists j {:trigger HasKeyAt(rs, placed, key, start, j)} :: i <= j < |placed| && HasKeyAt(rs, placed, key, start, j)
  }

  /** No slot from move i to move j of the round holds a record that hashes to 0. */
  ghost predicate ClearPath(rs: seq<Rec>, placed: seq<nat>, start: nat, i: nat, j: nat)
    requires |placed| > 0
  {
    forall m {:trigger NonZeroAt(rs, placed, start, m)} :: i <= m <= j ==> NonZeroAt(rs, placed, start, m)
  }

  ghost predicate NonZeroAt(rs: seq<Rec>, placed: seq<nat>, start: nat, m: nat)
    requires |placed| > 0
  {
    var r := placed[Hop(start, m, |placed|)];
    r < |rs| && rs[r].h != 0
  }

  /** Some slot of the round from move i on holds the key, and none up to it a record that hashes to 0. */
  ghost predicate KeyReached(rs: seq<Rec>, placed: seq<nat>, key: seq<byte>, start: nat, i: nat)
    requires |placed| > 0
  {
    exists j {:trigger HasKeyAt(rs, placed, key, start, j)} ::
      i <= j < |placed| && HasKeyAt(rs, placed, key, start, j) && ClearPath(rs, placed, start, i, j)
  }

  ghost predicate HasKeyAt(rs: seq<Rec>, placed: seq<nat>, key: seq<byte>, start: nat, j: nat)
    requires |placed| > 0
  {
    var r := placed[Hop(start, j, |placed|)];
    r < |rs| && rs[r].key == key
  }

  /** A probe hits from move i on exactly when it reaches the key. */
  lemma {:induction false} ProbeFinds(data: seq<byte>, rs: seq<Rec>, slot: nat, placed: seq<nat>, key: seq<byte>,
                                      h: u32, start: nat, i: nat)
    requires IsImage(data, rs) && TableHolds(data, rs, slot, placed)
    requires 0 < |placed| < 0x2000_0000 && start < |placed| && TablePos(rs, slot) < TWO32
    requires forall r :: 0 <= r < |rs| && rs[r].key == key ==> rs[r].h == h
    ensures Probe(data, key, h, TablePos(rs, slot), |placed|, start, i) ==
              if KeyReached(rs, placed, key, start, i) then Found else NotFound
    decreases |placed| - i
  {
    hide IsImage, TableHolds, TablePos, RecPos, Probe, KeyReached, RecordIs, SlotAt;
    var n := |placed|;
    if i < n {
      ProbeFinds(data, rs, slot, placed, key, h, start, i + 1);
      var k := Hop(start, i, n);
      SlotIsHop(start, i, n);
      CellReads(data, rs, slot, placed, k);
      CellInFile(data, rs, slot, placed, k);
      RecordReads(data, rs, placed[k], key);
      KeyReachedNext(rs, placed, key, start, i);
      if rs[placed[k]].h == 0 {
        ProbeStops(data, key, h, TablePos(rs, slot), n, start, i);
      } else {
        ProbeStep(data, key, h, TablePos(rs, slot), n, start, i, rs[placed[k]].h, RecPos(rs, placed[k]));
      }
    } else {
      ProbeEnds(data, rs, placed, key, h, TablePos(rs, slot), start, i);
    }
  }

  lemma CellInFile(data: seq<byte>, rs: seq<Rec>, slot: nat, placed: seq<nat>, k: nat)
    requires TableHolds(data, rs, slot, placed) && k < |placed|
    ensures placed[k] < |rs| && RecPos(rs, placed[k]) < TWO32
  {
    hide RecPos, TablePos, CellBytes, Arranged;
    assert CellAt(data[TablePos(rs, slot)..TablePos(rs, slot + 1)], rs, placed, k);
  }

  lemma ProbeEnds(data: seq<byte>, rs: seq<Rec>, placed: seq<nat>, key: seq<byte>, h: u32, off: u32, start: u32, i: nat)
    requires 0 < |placed| < TWO32 && |placed| <= i
    ensures Probe(data, key, h, off, |placed|, start, i) == NotFound && !KeyReached(rs, placed, key, start, i)
  {
  }

  lemma SlotIsHop(start: nat, i: nat, n: nat)
    requires start < n < 0x2000_0000 && i < n
    ensures SlotAt(start, i, n) == Hop(start, i, n)
  {
    assert U32(start + i) == start + i;
  }

  lemma KeyReachedNext(rs: seq<Rec>, placed: seq<nat>, key: seq<byte>, start: nat, i: nat)
    requires i < |placed|
    ensures KeyReached(rs, placed, key, start, i) <==>
              && NonZeroAt(rs, placed, start, i)
              && (HasKeyAt(rs, placed, key, start, i) || KeyReached(rs, placed, key, start, i + 1))
  {
    hide HasKeyAt, NonZeroAt;
    if NonZeroAt(rs, placed, start, i) && HasKeyAt(rs, placed, key, start, i) {
      assert ClearPath(rs, placed, start, i, i);
    }
    if KeyReached(rs, placed, key, start, i) {
      var j :| i <= j < |placed| && HasKeyAt(rs, placed, key, start, j) && ClearPath(rs, placed, start, i, j);
      assert ClearPath(rs, placed, start, i + 1, j);
    }
    if NonZeroAt(rs, placed, start, i) && KeyReached(rs, placed, key, start, i + 1) {
      var j :| i + 1 <= j < |placed| && HasKeyAt(rs, placed, key, start, j) && ClearPath(rs, placed, start, i + 1, j);
      assert ClearPath(rs, placed, start, i, j);
    }
  }

  /** Where no record of the table hashes to 0, every key ahead is reached. */
  lemma AheadReached(rs: seq<Rec>, placed: seq<nat>, key: seq<byte>, start: nat)
    requires placed != [] && forall r :: r in placed ==> r < |rs| && rs[r].h != 0
    ensures KeyReached(rs, placed, key, start, 0) <==> KeyAhead(rs, placed, key, start, 0)
  {
    hide HasKeyAt;
    forall m: nat ensures NonZeroAt(rs, placed, start, m) {
      assert placed[Hop(start, m, |placed|)] in placed;
    }
    forall j: nat ensures ClearPath(rs, placed, start, 0, j) {
    }
  }

  /** A zero hash ends the probe. */
  lemma ProbeStops(data: seq<byte>, key: seq<byte>, h: u32, off: u32, n: u32, start: u32, i: nat)
    requires i < n
    requires var at := off + SlotAt(start, i, n) * 8; at + 8 <= |data| && Le32At(data, at) == 0
    ensures Probe(data, key, h, off, n, start, i) == NotFound
  {
  }

  /** One move of the probe past a cell that holds a non-zero hash. */
  lemma ProbeStep(data: seq<byte>, key: seq<byte>, h: u32, off: u32, n: u32, start: u32, i: nat, th: u32, tpos: u32)
    requires i < n
    requires var at := off + SlotAt(start, i, n) * 8;
             at + 8 <= |data| && Le32At(data, at) == th != 0 && Le32At(data, at + 4) == tpos
    ensures Probe(data, key, h, off, n, start, i) ==
              if th == h && RecordIs(data, key, tpos) != NotFound then RecordIs(data, key, tpos)
              else Probe(data, key, h, off, n, start, i + 1)
  {
  }

  lemma SlotCountSmall(rs: seq<Rec>, slot: nat)
    requires Fits(rs)
    ensures |Bucket(rs, slot)| < 0x2000_0000
  {
    BucketBounds(rs, slot, |rs|);
    RecPosMonotone(rs, 0, |rs|);
    TablePosMonotone(rs, 0, 255);
  }

  /** The answer for a key, per key: found exactly when its probe path reaches it. */
  lemma LookupReaches(data: seq<byte>, rs: seq<Rec>, key: seq<byte>)
    requires IsImage(data, rs)
    requires forall r :: 0 <= r < |rs| && rs[r].key == key ==> rs[r].h == HashOf(key)
    ensures var slot: nat := HashOf(key) % 256;
            if Bucket(rs, slot) == [] then LookupKey(data, key) == NotFound
            else TableOk(data, rs, slot) && forall placed :: TableHolds(data, rs, slot, placed) ==>
                   placed != [] && LookupKey(data, key) ==
                     if KeyReached(rs, placed, key, HashOf(key) / 256 % |placed|, 0) then Found else NotFound
  {
    hide HashOf, BucketUpTo, TableOk, TableHolds, Probe, RecordOk, KeyReached;
    var h := HashOf(key);
    var slot: nat := h % 256;
    assert HeaderOk(data, rs, slot);
    HeaderReads(data, rs, slot);
    TablePosMonotone(rs, 0, SLOTS);
    RecPosMonotone(rs, 0, |rs|);
    BucketBounds(rs, slot, |rs|);
    if Bucket(rs, slot) != [] {
      assert TableOk(data, rs, slot);
      forall placed | TableHolds(data, rs, slot, placed)
        ensures placed != [] && LookupKey(data, key) ==
                  if KeyReached(rs, placed, key, h / 256 % |placed|, 0) then Found else NotFound
      {
        BucketLookup(data, rs, key, h, slot, placed);
      }
    }
  }

  lemma BucketLookup(data: seq<byte>, rs: seq<Rec>, key: seq<byte>, h: u32, slot: nat, placed: seq<nat>)
    requires IsImage(data, rs) && slot == h % 256 && Bucket(rs, slot) != [] && TableHolds(data, rs, slot, placed)
    requires forall r :: 0 <= r < |rs| && rs[r].key == key ==> rs[r].h == h
    requires Le32At(data, h % 256 * 8) == TablePos(rs, slot) && Le32At(data, h % 256 * 8 + 4) == |Bucket(rs, slot)|
    ensures placed != []
    ensures LookupHash(data, key, h) ==
              if KeyReached(rs, placed, key, h / 256 % |placed|, 0) then Found else NotFound
  {
    hide Probe, KeyReached, BucketUpTo, HashOf;
    var n := |Bucket(rs, slot)|;
    CdbWriter.ArrangedMembers(rs, slot, placed);
    SlotCountSmall(rs, slot);
    PositionsFit(rs, slot);
    TablePosMonotone(rs, slot + 1, SLOTS);
    ProbeFinds(data, rs, slot, placed, key, h, h / 256 % n, 0);
    LookupIsProbe(data, key, h, TablePos(rs, slot), n);
  }

  /** In a bucket without zero hashes a key is found exactly when some record has it. */
  lemma LookupFinds(data: seq<byte>, rs: seq<Rec>, key: seq<byte>)
    requires IsImage(data, rs)
    requires forall r :: 0 <= r < |rs| && rs[r].key == key ==> rs[r].h == HashOf(key)
    requires forall r :: 0 <= r < |rs| && rs[r].h % 256 == HashOf(key) % 256 ==> rs[r].h != 0
    ensures LookupKey(data, key) == if exists r :: 0 <= r < |rs| && rs[r].key == key then Found else NotFound
  {
    hide HashOf, BucketUpTo, Probe, RecordOk, KeyReached, IsImage, LookupKey, TableHolds;
    var h := HashOf(key);
    var slot: nat := h % 256;
    LookupReaches(data, rs, key);
    BucketBounds(rs, slot, |rs|);
    if Bucket(rs, slot) == [] {
      forall r | 0 <= r < |rs| ensures rs[r].key != key {
        assert rs[r].key == key ==> r in Bucket(rs, slot);
      }
    } else {
      var placed :| TableHolds(data, rs, slot, placed);
      PlacedFacts(data, rs, slot, placed);
      AheadReached(rs, placed, key, h / 256 % |placed|);
      if r :| 0 <= r < |rs| && rs[r].key == key {
        PlacedAhead(rs, slot, placed, h / 256 % |placed|, r);
      }
    }
  }

  lemma PlacedFacts(data: seq<byte>, rs: seq<Rec>, slot: nat, placed: seq<nat>)
    requires TableHolds(data, rs, slot, placed)
    ensures Arranged(rs, slot, placed)
    ensures forall r :: r in placed ==> r < |rs| && rs[r].h % 256 == slot
  {
    CdbWriter.ArrangedMembers(rs, slot, placed);
    BucketBounds(rs, slot, |rs|);
  }

  lemma LookupIsProbe(data: seq<byte>, key: seq<byte>, h: u32, off: u32, n: u32)
    requires n > 0 && off + n * 8 <= |data|
    requires Le32At(data, h % 256 * 8) == off && Le32At(data, h % 256 * 8 + 4) == n
    ensures LookupHash(data, key, h) == Probe(data, key, h, off, n, h / 256 % n, 0)
  {
  }

  /** A round from any start meets every record of the bucket. */
  lemma PlacedAhead(rs: seq<Rec>, slot: nat, placed: seq<nat>, start: nat, r: nat)
    requires Arranged(rs, slot, placed) && start < |placed|
    requires r < |rs| && rs[r].h % 256 == slot
    ensures KeyAhead(rs, placed, rs[r].key, start, 0)
  {
    CdbWriter.ArrangedMembers(rs, slot, placed);
    BucketBounds(rs, slot, |rs|);
    assert r in placed;
    var k :| 0 <= k < |placed| && placed[k] == r;
    var j := HopReaches(start, k, |placed|);
    assert HasKeyAt(rs, placed, rs[r].key, start, j);
  }

  /** A key hashing to 0 is never found: the reader takes a zero hash for a free slot. */
  lemma ZeroHashLost(data: seq<byte>, key: seq<byte>)
    requires HashOf(key) == 0
    ensures LookupKey(data, key) != Found
  {
    ZeroLookup(data, key);
  }

  lemma ZeroLookup(data: seq<byte>, key: seq<byte>)
    ensures LookupHash(data, key, 0) == NotFound
  {
    var h: u32 := 0;
    var off, n := Le32At(data, h % 256 * 8), Le32At(data, h % 256 * 8 + 4);
    if n != 0 {
      ZeroProbe(data, key, off, n, h / 256 % n, 0);
      assert Probe(data, key, h, off, n, h / 256 % n, 0) == NotFound;
    }
    assert LookupHash(data, key, h) == NotFound;
  }

  lemma {:induction false} ZeroProbe(data: seq<byte>, key: seq<byte>, off: u32, n: u32, start: u32, i: nat)
    requires n > 0
    ensures Probe(data, key, 0, off, n, start, i) == NotFound
    decreases n - i
  {
    if i < n {
      ZeroProbe(data, key, off, n, start, i + 1);
    }
  }

  // ---------------------------------------------------------- main results

  /**
   * Round trip, exactly: in the file of these entries every key is answered as list membership has it
   * if and only if no entry's key hashes to 0.
   */
  lemma RoundTripExactly(data: seq<byte>, es: seq<Entry>)
    requires IsImage(data, RecordsOf(es))
    ensures NoZeroHash(es) <==>
              forall key: seq<byte> :: LookupKey(data, key) == if HasKey(es, key) then Found else NotFound
  {
    if NoZeroHash(es) {
      forall key: seq<byte>
        ensures LookupKey(data, key) == if HasKey(es, key) then Found else NotFound
      {
        RoundTrip(data, es, key);
      }
    } else {
      var i :| 0 <= i < |es| && HashOf(es[i].key) == 0;
      ZeroHashLost(data, es[i].key);
      assert HasKey(es, es[i].key);
    }
  }

  lemma RoundTrip(data: seq<byte>, es: seq<Entry>, key: seq<byte>)
    requires IsImage(data, RecordsOf(es)) && NoZeroHash(es)
    ensures LookupKey(data, key) == if HasKey(es, key) then Found else NotFound
  {
    hide HashOf, IsImage, LookupKey;
    EntryRecords(es);
    LookupFinds(data, RecordsOf(es), key);
    KeyRecords(es, key);
  }

  /** The records have the keys of the entries and their hashes. */
  lemma EntryRecords(es: seq<Entry>)
    ensures var rs := RecordsOf(es);
            |rs| == |es| && forall r :: 0 <= r < |rs| ==> rs[r].key == es[r].key && rs[r].h == HashOf(es[r].key)
  {
    hide HashOf;
    RecordsOfFacts(es);
    var rs := RecordsOf(es);
    forall r | 0 <= r < |rs| ensures rs[r].key == es[r].key && rs[r].h == HashOf(es[r].key) {
      assert Describes(rs[r], es[r]);
    }
  }

  lemma KeyRecords(es: seq<Entry>, key: seq<byte>)
    ensures var rs := RecordsOf(es); HasKey(es, key) <==> exists r :: 0 <= r < |rs| && rs[r].key == key
  {
    hide HashOf;
    EntryRecords(es);
    var rs := RecordsOf(es);
    if HasKey(es, key) {
      var i :| 0 <= i < |es| && es[i].key == key;
      assert rs[i].key == key;
    }
  }

  /**
   * Per key, exactly: in the file of any entries a key is found if and only if its bucket holds it and no
   * record that hashes to 0 lies on its probe path up to there.
   */
  lemma KeyFoundExactly(data: seq<byte>, es: seq<Entry>, key: seq<byte>, placed: seq<nat>)
    requires IsImage(data, RecordsOf(es)) && TableHolds(data, RecordsOf(es), HashOf(key) % 256, placed)
    requires Bucket(RecordsOf(es), HashOf(key) % 256) != []
    ensures placed != []
    ensures LookupKey(data, key) ==
              if KeyReached(RecordsOf(es), placed, key, HashOf(key) / 256 % |placed|, 0) then Found else NotFound
  {
    hide HashOf, IsImage, LookupKey, TableHolds, KeyReached, Bucket;
    EntryRecords(es);
    LookupReaches(data, RecordsOf(es), key);
  }

  /** Keys of the other 255 buckets are never affected: they are found exactly when they are listed. */
  lemma OtherBucketsExact(data: seq<byte>, es: seq<Entry>, key: seq<byte>)
    requires IsImage(data, RecordsOf(es)) && HashOf(key) % 256 != 0
    ensures LookupKey(data, key) == if HasKey(es, key) then Found else NotFound
  {
    hide HashOf, IsImage, LookupKey;
    EntryRecords(es);
    LookupFinds(data, RecordsOf(es), key);
    KeyRecords(es, key);
  }

  /** A record that hashes to 0 hides a later key whose probe starts at its slot. */
  lemma ZeroHashHides(data: seq<byte>, zero: Entry, other: Entry)
    requires IsImage(data, RecordsOf([zero, other]))
    requires HashOf(zero.key) == 0 && HashOf(other.key) % 512 == 0 && HashOf(other.key) != 0
    ensures LookupKey(data, other.key) == NotFound
  {
    hide HashOf, IsImage, LookupKey, TableHolds, BucketUpTo, Arranged;
    var es, rs := [zero, other], RecordsOf([zero, other]);
    EntryRecords(es);
    LookupReaches(data, rs, other.key);
    BucketBounds(rs, 0, |rs|);
    assert 0 in Bucket(rs, 0);
    var placed :| TableHolds(data, rs, 0, placed);
    PlacedFacts(data, rs, 0, placed);
    BothPlaced(rs, placed);
    HalfWay(HashOf(other.key));
    KeyReachedNext(rs, placed, other.key, 0, 0);
    assert !NonZeroAt(rs, placed, 0, 0);
  }

  lemma HalfWay(h: nat)
    requires h % 512 == 0
    ensures h % 256 == 0 && h / 256 % 2 == 0
  {
    var q := h / 512;
    assert h == 256 * (2 * q);
    assert h / 256 == 2 * q;
  }

  /** Of two records with one start, the first in the input takes the first slot. */
  lemma BothPlaced(rs: seq<Rec>, placed: seq<nat>)
    requires |rs| == 2 && rs[0].h == 0 && rs[1].h % 256 == 0 && Arranged(rs, 0, placed)
    ensures placed == [0, 1]
  {
    assert Bucket(rs, 0) == [0, 1] by {
      assert BucketUpTo(rs, 0, 0) == [] && BucketUpTo(rs, 0, 1) == [0];
    }
    CdbWriter.ArrangedMembers(rs, 0, placed);
    assert 0 in placed && 1 in placed;
    assert placed == [0, 1] || placed == [1, 0];
    SwappedNotOrdered(rs);
  }

  lemma SwappedNotOrdered(rs: seq<Rec>)
    requires |rs| == 2 && rs[0].h == 0
    ensures !ProbeOrder(rs, [1, 0])
  {
    var placed: seq<nat> := [1, 0];
    assert Hop(Start(rs, placed[1], |placed|), 1, |placed|) == 1;
    assert placed[Hop(Start(rs, 0, |placed|), 0, |placed|)] == 1;
    assert !PassedEarlier(rs, placed, placed[1], 1);
  }

  /** The entries the generator makes of a list of names: names it rejects are skipped. */
  function EntriesOf(domains: seq<text>, val: seq<byte>): seq<Entry> {
    if domains == [] then []
    else
      var front := EntriesOf(domains[..|domains| - 1], val);
      match GeneratorKey(domains[|domains| - 1])
      case None => front
      case Some(key) => front + [Entry(key, val)]
  }

  method BuildEntries(domains: seq<text>, val: seq<byte>) returns (es: seq<Entry>)
    ensures es == EntriesOf(domains, val)
  {
    es := [];
    for i := 0 to |domains|
      invariant es == EntriesOf(domains[..i], val)
    {
      assert domains[..i + 1][..i] == domains[..i];
      var key := GeneratorWireName(domains[i]);
      if key.Some? {
        es := es + [Entry(key.value, val)];
      }
    }
    assert domains[..|domains|] == domains;
  }

  ghost predicate Listed(domains: seq<text>, key: seq<byte>) {
    exists i :: 0 <= i < |domains| && GeneratorKey(domains[i]) == Some(key)
  }

  lemma {:induction false} EntriesKeys(domains: seq<text>, val: seq<byte>, key: seq<byte>)
    ensures HasKey(EntriesOf(domains, val), key) <==> Listed(domains, key)
  {
    hide GeneratorKey;
    if domains != [] {
      var n := |domains| - 1;
      EntriesKeys(domains[..n], val, key);
      var front := EntriesOf(domains[..n], val);
      assert domains == domains[..n] + [domains[n]];
      ListedNext(domains[..n], domains[n], key);
      if GeneratorKey(domains[n]).Some? {
        HasKeyNext(front, Entry(GeneratorKey(domains[n]).value, val), key);
      }
    }
  }

  lemma ListedNext(front: seq<text>, last: text, key: seq<byte>)
    ensures Listed(front + [last], key) <==> Listed(front, key) || GeneratorKey(last) == Some(key)
  {
    hide GeneratorKey;
    var all := front + [last];
    assert all[|front|] == last;
    assert forall i :: 0 <= i < |front| ==> all[i] == front[i];
    if Listed(front, key) {
      var i :| 0 <= i < |front| && GeneratorKey(front[i]) == Some(key);
      assert GeneratorKey(all[i]) == Some(key);
    }
  }

  lemma HasKeyNext(front: seq<Entry>, last: Entry, key: seq<byte>)
    ensures HasKey(front + [last], key) <==> HasKey(front, key) || last.key == key
  {
    var all := front + [last];
    assert all[|front|] == last;
    if HasKey(front, key) {
      var i :| 0 <= i < |front| && front[i].key == key;
      assert all[i].key == key;
    }
  }

  /**
   * End to end: querying the panel about a name, over the file generated from a list, hits exactly when
   * the list has a name with the same lower-case labels as the queried one.
   */
  lemma NameRoundTrip(data: seq<byte>, domains: seq<text>, val: seq<byte>, query: text)
    requires IsImage(data, RecordsOf(EntriesOf(domains, val)))
    requires NoZeroHash(EntriesOf(domains, val))
    ensures Lookup(data, query) == Found <==>
              PanelKey(query).Some? && Listed(domains, PanelKey(query).value)
    ensures Lookup(data, query) != Panic
  {
    if PanelKey(query).Some? {
      var key := PanelKey(query).value;
      RoundTrip(data, EntriesOf(domains, val), key);
      EntriesKeys(domains, val, key);
    }
  }

  /** Two accepted names have one key exactly when they have the same labels after lower-casing and trimming. */
  lemma SameKeySameLabels(listed: text, query: text)
    requires GeneratorKey(listed).Some? && PanelKey(query).Some?
    ensures GeneratorKey(listed) == PanelKey(query) <==> ToLower(TrimRight(listed, IsDot)) == PanelName(query)
  {
    var a, b := ToLower(TrimRight(listed, IsDot)), PanelName(query);
    if WireOf(Split(a, '.')) == WireOf(Split(b, '.')) {
      WireInjective(Split(a, '.'), Split(b, '.'));
      JoinSplit(a, '.');
      JoinSplit(b, '.');
    }
  }

  /** Among equal keys, the first one a probe meets is the one inserted first. */
  lemma FirstMatchIsEarliest(rs: seq<Rec>, slot: nat, placed: seq<nat>, start: nat, i: nat, r: nat)
    requires Arranged(rs, slot, placed) && i < |placed| && r in placed && r < |rs|
    requires start == Start(rs, r, |placed|)
    requires HasKeyAt(rs, placed, rs[r].key, start, i)
    requires forall j :: 0 <= j < i ==> !HasKeyAt(rs, placed, rs[r].key, start, j)
    ensures placed[Hop(start, i, |placed|)] <= r
  {
    var n := |placed|;
    var k :| 0 <= k < n && placed[k] == r;
    var j := HopReaches(start, k, n);
    assert HasKeyAt(rs, placed, rs[r].key, start, j);
    if i < j {
      assert PassedEarlier(rs, placed, r, j);
    }
  }

  // ------------------------------------------------ a name that is lost

  lemma HashNext(data: seq<byte>, h: u32, b: byte, x: u32)
    requires HashOf(data) == h && MaskedStep(h, b) == x
    ensures HashOf(data + [b]) == x
  {
    assert (data + [b])[..|data|] == data;
  }

  lemma HashThree(d: seq<byte>, h: u32, a: byte, x: u32, b: byte, y: u32, c: byte, z: u32)
    requires HashOf(d) == h && MaskedStep(h, a) == x && MaskedStep(x, b) == y && MaskedStep(y, c) == z
    ensures HashOf(d + [a, b, c]) == z
  {
    HashNext(d, h, a, x);
    HashNext(d + [a], x, b, y);
    HashNext(d + [a] + [b], y, c, z);
    assert d + [a] + [b] + [c] == d + [a, b, c];
  }

  lemma StepIs(h: u32, b: byte, q: nat, p: nat, r: nat, y: nat)
    requires h * 33 == q * 0x1_0000_0000 + 256 * p + r && 256 * p + r < TWO32 && r < 256
    requires XorLow(r, b) == y
    ensures MaskedStep(h, b) == 256 * p + y
  {
    var w: u32 := 256 * p + r;
    ModIs(h + h * 32, q, w);
    LowByte(w, p, r, b);
  }

  lemma ModIs(x: nat, q: nat, w: u32)
    requires x == q * 0x1_0000_0000 + w
    ensures x % TWO32 == w
  {
  }

  lemma LowByte(w: u32, p: nat, r: nat, b: byte)
    requires w == 256 * p + r && r < 256
    ensures XorByte(w, b) == 256 * p + XorLow(r, b)
  {
    assert w % 256 == r;
  }

  lemma LostStepA()
    ensures MaskedStep(5381, 7) == 177570
  {
    hide MaskedStep;
    StepIs(5381, 7, 0, 693, 165, 162);
  }

  lemma LostStepB()
    ensures MaskedStep(177570, 114) == 5859728
  {
    hide MaskedStep;
    StepIs(177570, 114, 0, 22889, 226, 144);
  }

  lemma LostStepC()
    ensures MaskedStep(5859728, 101) == 193371125
  {
    hide MaskedStep;
    StepIs(5859728, 101, 0, 755355, 144, 245);
  }

  lemma LostStepD()
    ensures MaskedStep(193371125, 116) == 2086279905
  {
    hide MaskedStep;
    StepIs(193371125, 116, 1, 8149530, 149, 225);
  }

  lemma LostStepE()
    ensures MaskedStep(2086279905, 116) == 127760245
  {
    hide MaskedStep;
    StepIs(2086279905, 116, 16, 499063, 1, 117);
  }

  lemma LostStepF()
    ensures MaskedStep(127760245, 107) == 4216088190
  {
    hide MaskedStep;
    StepIs(127760245, 107, 0, 16469094, 21, 126);
  }

  lemma LostStepG()
    ensures MaskedStep(4216088190, 111) == 1691956817
  {
    hide MaskedStep;
    StepIs(4216088190, 111, 32, 6609206, 62, 81);
  }

  lemma LostStepH()
    ensures MaskedStep(1691956817, 113) == 0
  {
    hide MaskedStep;
    StepIs(1691956817, 113, 13, 0, 113, 0);
  }

  lemma LostStepI()
    ensures MaskedStep(0, 0) == 0
  {
    hide MaskedStep;
    StepIs(0, 0, 0, 0, 0, 0);
  }

  /** The name "rettkoq" has a wire key hashing to 0, so no generated file ever answers for it. */
  lemma LostName(data: seq<byte>)
    ensures GeneratorKey("rettkoq") == Some([7, 114, 101, 116, 116, 107, 111, 113, 0])
    ensures Lookup(data, "rettkoq") != Found
  {
    var s: text := "rettkoq";
    assert TrimRight(s, IsDot) == s && ToLower(s) == s && TrimSpace(s) == s;
    LostKey(s);
    KeysAgree(s);
    LostHash(WireOf([s]));
    ZeroHashLost(data, WireOf([s]));
  }

  lemma LostKey(s: text)
    requires s == "rettkoq" && ToLower(TrimRight(s, IsDot)) == s
    ensures WireOf([s]) == [7, 114, 101, 116, 116, 107, 111, 113, 0]
    ensures GeneratorKey(s) == Some(WireOf([s]))
  {
    hide Split, Encode, ToLower, TrimRight;
    SplitPiece(s, '.');
    LostLetters(s);
    PrefixedCons(s, []);
    assert [s] + [] == [s] && Prefixed([]) == [];
  }

  lemma LostLetters(s: text)
    requires s == "rettkoq"
    ensures Encode(s) == [114, 101, 116, 116, 107, 111, 113] && '.' !in s
  {
  }

  lemma LostHash(key: seq<byte>)
    requires key == [7, 114, 101, 116, 116, 107, 111, 113, 0]
    ensures HashOf(key) == 0
  {
    hide MaskedStep;
    LostStepA();
    LostStepB();
    LostStepC();
    LostStepD();
    LostStepE();
    LostStepF();
    LostStepG();
    LostStepH();
    LostStepI();
    LostChain([]);
    assert [] + [7, 114, 101] + [116, 116, 107] + [111, 113, 0] == key;
  }

  lemma LostChain(d: seq<byte>)
    requires d == []
    requires MaskedStep(5381, 7) == 177570 && MaskedStep(177570, 114) == 5859728 &&
             MaskedStep(5859728, 101) == 193371125
    requires MaskedStep(193371125, 116) == 2086279905 && MaskedStep(2086279905, 116) == 127760245
    requires MaskedStep(127760245, 107) == 4216088190
    requires MaskedStep(4216088190, 111) == 1691956817 && MaskedStep(1691956817, 113) == 0 && MaskedStep(0, 0) == 0
    ensures HashOf(d + [7, 114, 101] + [116, 116, 107] + [111, 113, 0]) == 0
  {
    HashThree(d, 5381, 7, 177570, 114, 5859728, 101, 193371125);
    HashThree(d + [7, 114, 101], 193371125, 116, 2086279905, 116, 127760245, 107, 4216088190);
    HashThree(d + [7, 114, 101] + [116, 116, 107], 4216088190, 111, 1691956817, 113, 0, 0, 0);
  }

  // ------------------------------------------------ a name that is hidden

  lemma HiddenStepA()
    ensures MaskedStep(5381, 2) == 177575 && MaskedStep(177575, 107) == 5860076
  {
    hide MaskedStep;
    StepIs(5381, 2, 0, 693, 165, 167);
    StepIs(177575, 107, 0, 22890, 135, 236);
  }

  lemma HiddenStepB()
    ensures MaskedStep(5860076, 108) == 193382400
  {
    hide MaskedStep;
    StepIs(5860076, 108, 0, 755400, 108, 0);
  }

  lemma NoBits()
    ensures XorLow(0, 0) == 0
  {
  }

  lemma HiddenStepC()
    ensures MaskedStep(193382400, 0) == 2086651904
  {
    hide MaskedStep, XorLow;
    NoBits();
    StepIs(193382400, 0, 1, 8150984, 0, 0);
  }

  lemma HiddenHash()
    ensures HashOf([2, 107, 108, 0]) == 2086651904
  {
    hide MaskedStep, HashOf;
    HiddenStepA();
    HiddenStepB();
    HiddenStepC();
    NoBytes();
    HashThree([], 5381, 2, 177575, 107, 5860076, 108, 193382400);
    HashNext([] + [2, 107, 108], 193382400, 0, 2086651904);
    assert [] + [2, 107, 108] + [0] == [2, 107, 108, 0];
  }

  lemma NoBytes()
    ensures HashOf([]) == 5381
  {
  }

  lemma HiddenKey(s: text)
    requires s == "kl"
    ensures GeneratorKey(s) == Some([2, 107, 108, 0]) && PanelKey(s) == GeneratorKey(s)
  {
    hide Split, Prefixed;
    assert TrimRight(s, IsDot) == s && ToLower(s) == s && TrimSpace(s) == s;
    OneLabel(s);
    assert Encode(s) == [107, 108];
    assert WireOf([s]) == [2, 107, 108, 0];
    assert forall l :: l in Split(s, '.') ==> l == s;
    KeysAgree(s);
  }

  /** Listed behind "rettkoq", the name "kl" is in the file and yet not found. */
  lemma HiddenName(data: seq<byte>, val: seq<byte>)
    requires IsImage(data, RecordsOf(EntriesOf(["rettkoq", "kl"], val)))
    ensures Lookup(data, "kl") == NotFound
  {
    hide IsImage, LookupKey, HashOf, GeneratorKey, PanelKey;
    var lost, hidden: text := "rettkoq", "kl";
    LostName(data);
    LostHash([7, 114, 101, 116, 116, 107, 111, 113, 0]);
    HiddenKey(hidden);
    HiddenHash();
    var names := [lost, hidden];
    assert names[..1] == [lost] && names[..1][..0] == [];
    var zero, other := Entry([7, 114, 101, 116, 116, 107, 111, 113, 0], val), Entry([2, 107, 108, 0], val);
    assert EntriesOf(names[..1], val) == [] + [zero];
    assert EntriesOf(names, val) == [zero, other];
    ZeroHashHides(data, zero, other);
  }
}
