/** The CDB file layout: hash, positions of records and tables, and what a finished file contains. */
module CdbFormat {
  import opened Bytes

  datatype Entry = Entry(key: seq<byte>, val: seq<byte>)

  /** An entry with its hash, file position and lengths, as the writer collects it. */
  datatype Rec = Rec(h: u32, pos: nat, klen: nat, dlen: nat, key: seq<byte>, val: seq<byte>)

  const HEADER: nat := 2048
  const SLOTS: nat := 256

  // ---------------------------------------------------------------- hash

  /** One step as the generator computes it: unbounded integers, masked to 32 bits. */
  function MaskedStep(h: u32, b: byte): u32 {
    XorByte((h + h * 32) % TWO32, b)
  }

  /** One step as the panel computes it: the shift and the sum each wrap at 32 bits. */
  function WrappingStep(h: u32, b: byte): u32 {
    XorByte(U32(h + U32(h * 32)), b)
  }

  function HashOf(data: seq<byte>): u32 {
    if data == [] then 5381 else MaskedStep(HashOf(data[..|data| - 1]), data[|data| - 1])
  }

  /** Wrapping the shift before the sum changes nothing modulo 2^32. */
  lemma WrapSum(h: u32)
    ensures U32(h + U32(h * 32)) == (h + h * 32) % TWO32
  {
    var q := h * 32 / 0x1_0000_0000;
    assert U32(h * 32) == h * 32 - q * 0x1_0000_0000;
    assert (h + h * 32 - q * 0x1_0000_0000) % 0x1_0000_0000 == (h + h * 32) % 0x1_0000_0000;
  }

  lemma StepsAgree(h: u32, b: byte)
    ensures WrappingStep(h, b) == MaskedStep(h, b)
  {
    WrapSum(h);
    assert U32(h + U32(h * 32)) == (h + h * 32) % TWO32;
  }

  // -------------------------------------------------------------- layout

  function RecordSize(r: Rec): nat {
    |r.key| + |r.val| + 8
  }

  /** File offset of record i; RecPos(rs, |rs|) is the end of the data section. */
  function RecPos(rs: seq<Rec>, i: nat): nat
    requires i <= |rs|
  {
    if i == 0 then HEADER else RecPos(rs, i - 1) + RecordSize(rs[i - 1])
  }

  /** The records among the first n whose hash ends in the given byte, in input order. */
  function BucketUpTo(rs: seq<Rec>, slot: nat, n: nat): seq<nat>
    requires n <= |rs|
  {
    if n == 0 then []
    else if rs[n - 1].h % 256 == slot then BucketUpTo(rs, slot, n - 1) + [n - 1]
    else BucketUpTo(rs, slot, n - 1)
  }

  function Bucket(rs: seq<Rec>, slot: nat): seq<nat> {
    BucketUpTo(rs, slot, |rs|)
  }

  function TablePos(rs: seq<Rec>, slot: nat): nat {
    if slot == 0 then RecPos(rs, |rs|) else TablePos(rs, slot - 1) + 8 * |Bucket(rs, slot - 1)|
  }

  /** The records of the entries: each with the hash of its key and its place in the file. */
  ghost function RecordsOf(es: seq<Entry>): seq<Rec> {
    if es == [] then []
    else
      var rs, e := RecordsOf(es[..|es| - 1]), es[|es| - 1];
      rs + [Rec(HashOf(e.key), RecPos(rs, |rs|), |e.key|, |e.val|, e.key, e.val)]
  }

  ghost predicate Positioned(rs: seq<Rec>) {
    forall i {:trigger RightPlace(rs, i)} :: 0 <= i < |rs| ==> RightPlace(rs, i)
  }

  ghost predicate RightPlace(rs: seq<Rec>, i: nat)
    requires i < |rs|
  {
    rs[i].pos == RecPos(rs, i) && rs[i].klen == |rs[i].key| && rs[i].dlen == |rs[i].val|
  }

  ghost predicate PosFits(rs: seq<Rec>, i: nat)
    requires i < |rs|
  {
    RecPos(rs, i) < TWO32 && |rs[i].key| < TWO32 && |rs[i].val| < TWO32
  }

  ghost predicate Describes(r: Rec, e: Entry) {
    r.h == HashOf(e.key) && r.key == e.key && r.val == e.val
  }

  lemma {:induction false} RecordsOfFacts(es: seq<Entry>)
    ensures |RecordsOf(es)| == |es|
    ensures Positioned(RecordsOf(es))
    ensures forall i :: 0 <= i < |es| ==> Describes(RecordsOf(es)[i], es[i])
  {
    if es != [] {
      var rs, all := RecordsOf(es[..|es| - 1]), RecordsOf(es);
      RecordsOfFacts(es[..|es| - 1]);
      forall i | 0 <= i < |all|
        ensures RightPlace(all, i)
      {
        RecPosPrefix(rs, [all[|rs|]], i);
        assert i < |rs| ==> RightPlace(rs, i);
      }
    }
  }

  lemma {:induction false} RecPosPrefix(rs: seq<Rec>, more: seq<Rec>, i: nat)
    requires i <= |rs|
    ensures RecPos(rs + more, i) == RecPos(rs, i)
  {
    if i > 0 {
      RecPosPrefix(rs, more, i - 1);
    }
  }

  function RecordBytes(r: Rec): (bs: seq<byte>)
    requires |r.key| < TWO32 && |r.val| < TWO32
    ensures |bs| == RecordSize(r)
  {
    Le32(|r.key|) + Le32(|r.val|) + r.key + r.val
  }

  function HeaderBytes(rs: seq<Rec>, slot: nat): (bs: seq<byte>)
    requires TablePos(rs, slot) < TWO32 && |Bucket(rs, slot)| < TWO32
    ensures |bs| == 8
  {
    Le32(TablePos(rs, slot)) + Le32(|Bucket(rs, slot)|)
  }

  function CellBytes(rs: seq<Rec>, r: nat): (bs: seq<byte>)
    requires r < |rs| && RecPos(rs, r) < TWO32
    ensures |bs| == 8
  {
    Le32(rs[r].h) + Le32(RecPos(rs, r))
  }

  ghost predicate CellAt(bs: seq<byte>, rs: seq<Rec>, placed: seq<nat>, j: nat)
    requires j < |placed|
  {
    && placed[j] < |rs| && RecPos(rs, placed[j]) < TWO32
    && 8 * j + 8 <= |bs| && bs[8 * j..8 * j + 8] == CellBytes(rs, placed[j])
  }

  /** A table: hash and position of each placed record. */
  ghost predicate IsTable(bs: seq<byte>, rs: seq<Rec>, placed: seq<nat>) {
    |bs| == 8 * |placed| && forall j {:trigger CellAt(bs, rs, placed, j)} :: 0 <= j < |placed| ==>
      CellAt(bs, rs, placed, j)
  }

  // ------------------------------------------------------------- placing

  function Start(rs: seq<Rec>, r: nat, n: nat): nat
    requires r < |rs| && n > 0
  {
    rs[r].h / 256 % n
  }

  /** Slot reached from s after i forward moves with wraparound. */
  function Hop(s: nat, i: nat, n: nat): (slot: nat)
    requires n > 0
    ensures slot < n
  {
    (s + i) % n
  }

  /** Linear probing: every slot a record was probed past holds an earlier record. */
  ghost predicate ProbeOrder(rs: seq<Rec>, placed: seq<nat>) {
    forall k, i {:trigger Hop(Start(rs, placed[k], |placed|), i, |placed|)} ::
      0 <= k < |placed| && placed[k] < |rs| && 0 <= i < |placed|
      && Hop(Start(rs, placed[k], |placed|), i, |placed|) == k
      ==> PassedEarlier(rs, placed, placed[k], i)
  }

  ghost predicate PassedEarlier(rs: seq<Rec>, placed: seq<nat>, r: nat, i: nat)
    requires r < |rs| && |placed| > 0
  {
    forall j :: 0 <= j < i ==> placed[Hop(Start(rs, r, |placed|), j, |placed|)] < r
  }

  ghost predicate Arranged(rs: seq<Rec>, slot: nat, placed: seq<nat>) {
    && multiset(placed) == multiset(Bucket(rs, slot))
    && ProbeOrder(rs, placed)
  }

  // -------------------------------------------------------- finished file

  /** Every position the file stores fits in 32 bits. */
  predicate Fits(rs: seq<Rec>) {
    TablePos(rs, 255) < TWO32
  }

  ghost predicate HeaderOk(data: seq<byte>, rs: seq<Rec>, slot: nat)
    requires Fits(rs) && slot < SLOTS
  {
    PositionsFit(rs, slot);
    |data| >= 8 * slot + 8 && data[8 * slot..8 * slot + 8] == HeaderBytes(rs, slot)
  }

  ghost predicate RecordOk(data: seq<byte>, rs: seq<Rec>, i: nat)
    requires i < |rs|
  {
    && |rs[i].key| < TWO32 && |rs[i].val| < TWO32
    && RecPos(rs, i + 1) <= |data|
    && data[RecPos(rs, i)..RecPos(rs, i + 1)] == RecordBytes(rs[i])
  }

  ghost predicate TableHolds(data: seq<byte>, rs: seq<Rec>, slot: nat, placed: seq<nat>) {
    && Arranged(rs, slot, placed)
    && TablePos(rs, slot) <= TablePos(rs, slot + 1) <= |data|
    && IsTable(data[TablePos(rs, slot)..TablePos(rs, slot + 1)], rs, placed)
  }

  ghost predicate TableOk(data: seq<byte>, rs: seq<Rec>, slot: nat) {
    exists placed: seq<nat> :: TableHolds(data, rs, slot, placed)
  }

  /** The file the format prescribes for these entries. */
  ghost predicate IsImage(data: seq<byte>, rs: seq<Rec>) {
    && Fits(rs)
    && |data| == TablePos(rs, SLOTS)
    && (forall slot :: 0 <= slot < SLOTS ==> HeaderOk(data, rs, slot))
    && (forall i :: 0 <= i < |rs| ==> RecordOk(data, rs, i))
    && (forall slot :: 0 <= slot < SLOTS ==> TableOk(data, rs, slot))
  }

  // --------------------------------------------------------- layout facts

  lemma {:induction false} RecPosMonotone(rs: seq<Rec>, i: nat, j: nat)
    requires i <= j <= |rs|
    ensures HEADER <= RecPos(rs, i)
    ensures RecPos(rs, i) + 8 * (j - i) <= RecPos(rs, j)
    ensures i < j ==> RecPos(rs, i) + RecordSize(rs[i]) <= RecPos(rs, j)
  {
    if i < j {
      RecPosMonotone(rs, i, j - 1);
    } else if i > 0 {
      RecPosMonotone(rs, i - 1, i - 1);
    }
  }

  lemma {:induction false} TablePosMonotone(rs: seq<Rec>, a: nat, b: nat)
    requires a <= b
    ensures RecPos(rs, |rs|) <= TablePos(rs, a) <= TablePos(rs, b)
    ensures a < b ==> TablePos(rs, a) + 8 * |Bucket(rs, a)| <= TablePos(rs, b)
  {
    if a < b {
      TablePosMonotone(rs, a, b - 1);
    } else if a > 0 {
      TablePosMonotone(rs, a - 1, a - 1);
    }
  }

  lemma {:induction false} BucketBounds(rs: seq<Rec>, slot: nat, n: nat)
    requires n <= |rs|
    ensures |BucketUpTo(rs, slot, n)| <= n
    ensures forall j :: 0 <= j < |BucketUpTo(rs, slot, n)| ==> BucketUpTo(rs, slot, n)[j] < n
    ensures forall i, j :: 0 <= i < j < |BucketUpTo(rs, slot, n)| ==>
              BucketUpTo(rs, slot, n)[i] < BucketUpTo(rs, slot, n)[j]
    ensures forall r :: r in BucketUpTo(rs, slot, n) <==> 0 <= r < n && rs[r].h % 256 == slot
  {
    if n > 0 {
      BucketBounds(rs, slot, n - 1);
    }
  }

  /** If the last table position fits, every stored number does. */
  lemma PositionsFit(rs: seq<Rec>, slot: nat)
    requires Fits(rs) && slot < SLOTS
    ensures TablePos(rs, slot) < TWO32 && |Bucket(rs, slot)| < TWO32
    ensures forall i {:trigger PosFits(rs, i)} :: 0 <= i < |rs| ==> PosFits(rs, i)
  {
    TablePosMonotone(rs, slot, 255);
    BucketBounds(rs, slot, |rs|);
    RecPosMonotone(rs, 0, |rs|);
    forall i | 0 <= i < |rs|
      ensures PosFits(rs, i)
    {
      RecPosMonotone(rs, i, |rs|);
    }
  }

  // ---------------------------------------------------------- slot moves

  /** Every slot is reached from every start within n moves. */
  lemma HopReaches(s: nat, k: nat, n: nat) returns (i: nat)
    requires s < n && k < n
    ensures i < n && Hop(s, i, n) == k
  {
    i := if k >= s then k - s else k + n - s;
    HopIs(s, i, n);
  }

  lemma HopIs(s: nat, i: nat, n: nat)
    requires s < n && i < n
    ensures Hop(s, i, n) == if s + i < n then s + i else s + i - n
  {
  }

  /** Within one round no slot is visited twice. */
  lemma HopOnce(s: nat, i: nat, j: nat, n: nat)
    requires s < n && i < n && j < n && Hop(s, i, n) == Hop(s, j, n)
    ensures i == j
  {
    HopIs(s, i, n);
    HopIs(s, j, n);
  }
}
