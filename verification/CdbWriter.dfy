/** The generator's writer: a file written with seeks, in the order the generator writes it. */
module CdbWriter {
  import opened Basics
  import opened Bytes
  import opened CdbDump
  import opened CdbFormat

  // ---------------------------------------------------------------- file

  function Zeros(n: nat): seq<byte> {
    seq(n, _ => 0)
  }

  /** Contents after writing bs at pos: a gap is filled with zeros, writing nothing changes nothing. */
  function WriteAt(data: seq<byte>, pos: nat, bs: seq<byte>): (r: seq<byte>)
    ensures bs == [] ==> r == data
    ensures bs != [] ==> |r| == if |data| < pos + |bs| then pos + |bs| else |data|
  {
    if bs == [] then data
    else
      var padded := if |data| < pos then data + Zeros(pos - |data|) else data;
      padded[..pos] + bs + (if pos + |bs| < |padded| then padded[pos + |bs|..] else [])
  }

  lemma WriteAtWritten(data: seq<byte>, pos: nat, bs: seq<byte>)
    requires bs != []
    ensures WriteAt(data, pos, bs)[pos..pos + |bs|] == bs
  {
  }

  /** A region the write does not touch keeps its bytes. */
  lemma WriteAtKeeps(data: seq<byte>, pos: nat, bs: seq<byte>, a: nat, b: nat)
    requires a <= b <= |data|
    requires b <= pos || pos + |bs| <= a
    ensures b <= |WriteAt(data, pos, bs)|
    ensures WriteAt(data, pos, bs)[a..b] == data[a..b]
  {
  }

  class BinFile {
    var data: seq<byte>
    var pos: nat

    constructor ()
      ensures data == [] && pos == 0
    {
      data, pos := [], 0;
    }

    method Write(bs: seq<byte>)
      modifies this
      ensures data == WriteAt(old(data), old(pos), bs)
      ensures pos == old(pos) + |bs|
    {
      data := WriteAt(data, pos, bs);
      pos := pos + |bs|;
    }

    method Seek(p: nat)
      modifies `pos
      ensures pos == p
    {
      pos := p;
    }
  }

  // ------------------------------------------------------------- records

  method CdbHash(data: seq<byte>) returns (h: u32)
    ensures h == HashOf(data)
  {
    h := 5381;
    hide HashOf, XorByte;
    HashNone();
    assert data[..0] == [];
    for i := 0 to |data|
      invariant h == HashOf(data[..i])
    {
      HashOneMore(data, i);
      h := XorByte((h + h * 32) % TWO32, data[i]);
    }
    assert data[..|data|] == data;
  }

  lemma HashNone()
    ensures HashOf([]) == 5381
  {
  }

  lemma HashOneMore(data: seq<byte>, i: nat)
    requires i < |data|
    ensures HashOf(data[..i + 1]) == MaskedStep(HashOf(data[..i]), data[i])
  {
    hide MaskedStep;
    assert data[..i + 1][..i] == data[..i];
  }

  /** Step 1: hash and file position of every record. */
  method CollectRecords(es: seq<Entry>) returns (records: seq<Rec>)
    ensures records == RecordsOf(es)
  {
    hide RecordsOf, RecPos, HashOf;
    records := [];
    var pos := 2048;
    NoRecords();
    assert es[..0] == [];
    for n := 0 to |es|
      invariant |records| == n && records == RecordsOf(es[..n])
      invariant pos == RecPos(records, n)
    {
      var e := es[n];
      var h := CdbHash(e.key);
      OneMoreRecord(es, n);
      records := records + [Rec(h, pos, |e.key|, |e.val|, e.key, e.val)];
      pos := pos + |e.key| + |e.val| + 8;
    }
    assert es[..|es|] == es;
  }

  lemma NoRecords()
    ensures RecordsOf([]) == [] && RecPos([], 0) == 2048
  {
  }

  lemma OneMoreRecord(es: seq<Entry>, n: nat)
    requires n < |es|
    ensures var rs, e := RecordsOf(es[..n]), es[n];
            var more := rs + [Rec(HashOf(e.key), RecPos(rs, |rs|), |e.key|, |e.val|, e.key, e.val)];
            RecordsOf(es[..n + 1]) == more && RecPos(more, |more|) == RecPos(rs, |rs|) + |e.key| + |e.val| + 8
  {
    hide HashOf;
    assert es[..n + 1][..n] == es[..n];
    var rs, e := RecordsOf(es[..n]), es[n];
    RecPosPrefix(rs, [Rec(HashOf(e.key), RecPos(rs, |rs|), |e.key|, |e.val|, e.key, e.val)], |rs|);
  }

  ghost predicate Grouped(tables: map<nat, seq<nat>>, rs: seq<Rec>, n: nat)
    requires n <= |rs|
  {
    && (forall slot :: slot in tables <==> 0 <= slot < SLOTS && BucketUpTo(rs, slot, n) != [])
    && (forall slot :: slot in tables ==> tables[slot] == BucketUpTo(rs, slot, n))
  }

  /** Step 2: record numbers grouped by the low byte of the hash. */
  method GroupBySlot(rs: seq<Rec>) returns (tables: map<nat, seq<nat>>)
    requires Positioned(rs)
    ensures Grouped(tables, rs, |rs|)
  {
    tables := map[];
    for n := 0 to |rs|
      invariant Grouped(tables, rs, n)
    {
      var slot: nat := rs[n].h % 256;
      var before := if slot in tables then tables[slot] else [];
      tables := tables[slot := before + [n]];
    }
  }

  // -------------------------------------------------------------- tables

  function Wrap(s: seq<nat>): (r: seq<Option<nat>>)
    ensures |r| == |s| && forall i :: 0 <= i < |s| ==> r[i] == Some(s[i])
  {
    seq(|s|, i requires 0 <= i < |s| => Some(s[i]))
  }

  function Nones(n: nat): multiset<Option<nat>> {
    multiset{}[None := n]
  }

  lemma {:induction false} WrapCounts(s: seq<nat>, x: nat)
    ensures multiset(Wrap(s))[Some(x)] == multiset(s)[x]
  {
    if s != [] {
      var rest := s[..|s| - 1];
      WrapCounts(rest, x);
      assert s == rest + [s[|s| - 1]];
      assert Wrap(s) == Wrap(rest) + [Some(s[|s| - 1])];
    }
  }

  /** The probing property while slots are still free. */
  ghost predicate Probed(rs: seq<Rec>, cells: seq<Option<nat>>)
    requires |cells| > 0
  {
    forall k, i {:trigger Reached(rs, cells, k, i)} ::
      0 <= k < |cells| && 0 <= i < |cells| && Reached(rs, cells, k, i) ==> Passed(rs, cells, cells[k].value, i)
  }

  /** Slot k holds a record which reaches it after i moves. */
  ghost predicate Reached(rs: seq<Rec>, cells: seq<Option<nat>>, k: nat, i: nat)
    requires |cells| > 0 && k < |cells|
  {
    cells[k].Some? && cells[k].value < |rs| && Hop(Start(rs, cells[k].value, |cells|), i, |cells|) == k
  }

  ghost predicate Passed(rs: seq<Rec>, cells: seq<Option<nat>>, r: nat, i: nat)
    requires r < |rs| && |cells| > 0
  {
    forall j :: 0 <= j < i ==>
      var c := cells[Hop(Start(rs, r, |cells|), j, |cells|)];
      c.Some? && c.value < r
  }

  lemma PlaceKeepsProbed(rs: seq<Rec>, cells: seq<Option<nat>>, r: nat, i: nat)
    requires |cells| > 0 && r < |rs| && i < |cells|
    requires Probed(rs, cells)
    requires Passed(rs, cells, r, i)
    requires cells[Hop(Start(rs, r, |cells|), i, |cells|)].None?
    ensures Probed(rs, cells[Hop(Start(rs, r, |cells|), i, |cells|) := Some(r)])
  {
    var n := |cells|;
    var idx := Hop(Start(rs, r, n), i, n);
    var after := cells[idx := Some(r)];
    forall k, i2 | 0 <= k < n && 0 <= i2 < n && Reached(rs, after, k, i2)
      ensures Passed(rs, after, after[k].value, i2)
    {
      if k == idx {
        HopOnce(Start(rs, r, n), i, i2, n);
      } else {
        assert Reached(rs, cells, k, i2);
        assert Passed(rs, cells, cells[k].value, i2);
      }
    }
  }

  /** A table with fewer records than slots has a free slot, and a round from any start meets it. */
  lemma FreeSlotExists(cells: seq<Option<nat>>, hs: seq<nat>, s: nat)
    requires |hs| < |cells| && s < |cells|
    requires multiset(cells) == multiset(Wrap(hs)) + Nones(|cells| - |hs|)
    ensures exists i :: 0 <= i < |cells| && cells[Hop(s, i, |cells|)].None?
  {
    assert multiset(cells)[None] > 0;
    assert None in cells;
    var k :| 0 <= k < |cells| && cells[k] == None;
    var i := HopReaches(s, k, |cells|);
  }

  /** Whatever was placed before record hs[k] has a smaller number. */
  lemma PassedHold(rs: seq<Rec>, cells: seq<Option<nat>>, hs: seq<nat>, k: nat, i: nat)
    requires k < |hs| == |cells| && hs[k] < |rs| && i < |cells|
    requires forall a, b :: 0 <= a < b < |hs| ==> hs[a] < hs[b]
    requires forall p :: 0 <= p < |cells| && cells[p].Some? ==> cells[p].value in hs[..k]
    requires forall j :: 0 <= j < i ==> cells[Hop(Start(rs, hs[k], |cells|), j, |cells|)].Some?
    ensures Passed(rs, cells, hs[k], i)
  {
  }

  /** Cells after placing the first k of the bucket's records. */
  ghost predicate CellsHold(rs: seq<Rec>, cells: seq<Option<nat>>, hs: seq<nat>, k: nat)
    requires k <= |hs| == |cells| && |cells| > 0
  {
    && multiset(cells) == multiset(Wrap(hs[..k])) + Nones(|hs| - k)
    && Probed(rs, cells)
    && forall p :: 0 <= p < |cells| && cells[p].Some? ==> cells[p].value in hs[..k]
  }

  lemma CountNext(cells: seq<Option<nat>>, hs: seq<nat>, k: nat, idx: nat)
    requires k < |hs| && idx < |cells| && cells[idx].None?
    requires multiset(cells) == multiset(Wrap(hs[..k])) + Nones(|hs| - k)
    requires forall p :: 0 <= p < |cells| && cells[p].Some? ==> cells[p].value in hs[..k]
    ensures multiset(cells[idx := Some(hs[k])]) == multiset(Wrap(hs[..k + 1])) + Nones(|hs| - (k + 1))
    ensures var after := cells[idx := Some(hs[k])];
            forall p :: 0 <= p < |after| && after[p].Some? ==> after[p].value in hs[..k + 1]
  {
    var after, front := cells[idx := Some(hs[k])], hs[..k];
    assert hs[..k + 1] == front + [hs[k]];
    assert Wrap(front + [hs[k]]) == Wrap(front) + [Some(hs[k])];
    Replaced(cells, idx, Some(hs[k]));
  }

  lemma Replaced(cells: seq<Option<nat>>, idx: nat, c: Option<nat>)
    requires idx < |cells|
    ensures multiset(cells[idx := c]) == multiset(cells) - multiset{cells[idx]} + multiset{c}
  {
  }

  lemma CellsHoldNext(rs: seq<Rec>, cells: seq<Option<nat>>, hs: seq<nat>, k: nat, i: nat)
    requires k < |hs| == |cells| && hs[k] < |rs| && i < |hs|
    requires forall a, b :: 0 <= a < b < |hs| ==> hs[a] < hs[b]
    requires CellsHold(rs, cells, hs, k)
    requires forall j :: 0 <= j < i ==> cells[Hop(Start(rs, hs[k], |hs|), j, |hs|)].Some?
    requires cells[Hop(Start(rs, hs[k], |hs|), i, |hs|)].None?
    ensures CellsHold(rs, cells[Hop(Start(rs, hs[k], |hs|), i, |hs|) := Some(hs[k])], hs, k + 1)
  {
    PassedHold(rs, cells, hs, k, i);
    PlaceKeepsProbed(rs, cells, hs[k], i);
    CountNext(cells, hs, k, Hop(Start(rs, hs[k], |hs|), i, |hs|));
  }

  /** Puts record r into the first free slot met from start. */
  method PlaceRecord(cells: array<Option<nat>>, r: nat, start: nat, ghost rs: seq<Rec>, ghost hs: seq<nat>,
                     ghost k: nat)
    requires k < |hs| == cells.Length && r == hs[k] < |rs|
    requires start == Start(rs, r, |hs|)
    requires forall a, b :: 0 <= a < b < |hs| ==> hs[a] < hs[b]
    requires CellsHold(rs, cells[..], hs, k)
    modifies cells
    ensures CellsHold(rs, cells[..], hs, k + 1)
  {
    ghost var before := cells[..];
    FreeSlotExists(before, hs[..k], start);
    var i := 0;
    while i < cells.Length
      invariant 0 <= i <= cells.Length && cells[..] == before
      invariant forall j :: 0 <= j < i ==> before[Hop(start, j, |hs|)].Some?
    {
      var idx := (start + i) % cells.Length;
      assert idx == Hop(start, i, |hs|);
      if cells[idx].None? {
        CellsHoldNext(rs, before, hs, k, i);
        cells[idx] := Some(r);
        assert cells[..] == before[idx := Some(r)];
        break;
      }
      i := i + 1;
    }
  }

  lemma NoneHeld(rs: seq<Rec>, cells: seq<Option<nat>>, hs: seq<nat>)
    requires |hs| == |cells| > 0
    requires forall i :: 0 <= i < |cells| ==> cells[i] == None
    ensures CellsHold(rs, cells, hs, 0)
  {
    AllNone(cells);
  }

  lemma AllFilled(cells: seq<Option<nat>>, hs: seq<nat>)
    requires multiset(cells) == multiset(Wrap(hs)) + Nones(0)
    ensures multiset(cells) == multiset(Wrap(hs))
    ensures forall c :: c in cells ==> c.Some?
  {
    forall c | c in cells
      ensures c.Some?
    {
      assert c in multiset(cells);
      assert c in Wrap(hs);
    }
  }

  /** Step 4 for one bucket: every record goes to the first free slot from (hash >> 8) % slots. */
  method PlaceBucket(rs: seq<Rec>, hs: seq<nat>, ghost slot: nat)
      returns (placed: seq<nat>)
    requires Positioned(rs)
    requires hs == Bucket(rs, slot) && hs != []
    ensures Arranged(rs, slot, placed)
  {
    BucketBounds(rs, slot, |rs|);
    var slotCount := |hs|;
    var cells := new Option<nat>[slotCount](_ => None);
    NoneHeld(rs, cells[..], hs);
    for k := 0 to slotCount
      invariant CellsHold(rs, cells[..], hs, k)
    {
      assert hs[k] in hs;
      PlaceRecord(cells, hs[k], rs[hs[k]].h / 256 % slotCount, rs, hs, k);
    }
    assert hs[..slotCount] == hs;
    AllFilled(cells[..], hs);
    placed := Unwrap(cells[..]);
    ArrangedFromCells(rs, slot, cells[..], placed);
  }

  lemma AllNone(cells: seq<Option<nat>>)
    requires forall i :: 0 <= i < |cells| ==> cells[i] == None
    ensures multiset(cells) == Nones(|cells|)
  {
    if cells != [] {
      AllNone(cells[1..]);
      assert cells == [cells[0]] + cells[1..];
    }
  }

  method Unwrap(cells: seq<Option<nat>>) returns (placed: seq<nat>)
    requires forall c :: c in cells ==> c.Some?
    ensures Wrap(placed) == cells
  {
    placed := [];
    for k := 0 to |cells|
      invariant Wrap(placed) == cells[..k]
    {
      assert cells[k] in cells;
      placed := placed + [cells[k].value];
    }
  }

  lemma ArrangedFromCells(rs: seq<Rec>, slot: nat, cells: seq<Option<nat>>, placed: seq<nat>)
    requires cells == Wrap(placed) && |cells| > 0
    requires multiset(cells) == multiset(Wrap(Bucket(rs, slot)))
    requires Probed(rs, cells)
    ensures Arranged(rs, slot, placed)
  {
    forall x: nat
      ensures multiset(placed)[x] == multiset(Bucket(rs, slot))[x]
    {
      WrapCounts(placed, x);
      WrapCounts(Bucket(rs, slot), x);
    }
    var n := |placed|;
    forall k, i | 0 <= k < n && placed[k] < |rs| && 0 <= i < n && Hop(Start(rs, placed[k], n), i, n) == k
      ensures PassedEarlier(rs, placed, placed[k], i)
    {
      assert Reached(rs, cells, k, i);
      assert Passed(rs, cells, placed[k], i);
    }
  }

  // --------------------------------------------------- writing the file

  /** Two writes in a row are one write of both. */
  lemma WriteAtConcat(data: seq<byte>, pos: nat, a: seq<byte>, b: seq<byte>)
    ensures WriteAt(WriteAt(data, pos, a), pos + |a|, b) == WriteAt(data, pos, a + b)
  {
    if a == [] {
      assert a + b == b;
    } else if b == [] {
      assert a + b == a;
    } else {
      assert WriteAt(WriteAt(data, pos, a), pos + |a|, b) == WriteAt(data, pos, a + b);
    }
  }

  ghost predicate InFirst4G(rs: seq<Rec>, i: nat)
    requires i < |rs|
  {
    RecPos(rs, i) < TWO32
  }

  ghost predicate RecordsOk(data: seq<byte>, rs: seq<Rec>, n: nat)
    requires n <= |rs|
  {
    forall i :: 0 <= i < n ==> RecordOk(data, rs, i)
  }

  lemma RecordsKept(data: seq<byte>, rs: seq<Rec>, n: nat, pos: nat, bs: seq<byte>)
    requires n <= |rs| && RecordsOk(data, rs, n)
    requires pos + |bs| <= HEADER || RecPos(rs, n) <= pos
    ensures RecordsOk(WriteAt(data, pos, bs), rs, n)
  {
    hide RecPos, RecordBytes, WriteAt;
    forall i | 0 <= i < n
      ensures RecordOk(WriteAt(data, pos, bs), rs, i)
    {
      assert RecordOk(data, rs, i);
      RecPosMonotone(rs, 0, i);
      RecPosMonotone(rs, i, i + 1);
      RecPosMonotone(rs, i + 1, n);
      WriteAtKeeps(data, pos, bs, RecPos(rs, i), RecPos(rs, i + 1));
    }
  }

  lemma TableKept(data: seq<byte>, rs: seq<Rec>, slot: nat, pos: nat, bs: seq<byte>)
    requires TableOk(data, rs, slot)
    requires pos + |bs| <= TablePos(rs, slot) || TablePos(rs, slot + 1) <= pos
    ensures TableOk(WriteAt(data, pos, bs), rs, slot)
  {
    var placed: seq<nat> :| TableHolds(data, rs, slot, placed);
    WriteAtKeeps(data, pos, bs, TablePos(rs, slot), TablePos(rs, slot + 1));
    assert TableHolds(WriteAt(data, pos, bs), rs, slot, placed);
  }

  ghost predicate TablePositions(tablePos: map<nat, nat>, rs: seq<Rec>, n: nat) {
    forall t {:trigger TableAt(tablePos, rs, t)} :: 0 <= t < n ==> TableAt(tablePos, rs, t)
  }

  ghost predicate TableAt(tablePos: map<nat, nat>, rs: seq<Rec>, t: nat) {
    t in tablePos && tablePos[t] == TablePos(rs, t)
  }

  lemma TablePositionNext(tablePos: map<nat, nat>, rs: seq<Rec>, slot: nat, hpos: nat)
    requires TablePositions(tablePos, rs, slot) && hpos == TablePos(rs, slot)
    ensures TablePositions(tablePos[slot := hpos], rs, slot + 1)
  {
    var after := tablePos[slot := hpos];
    forall t | 0 <= t <= slot
      ensures TableAt(after, rs, t)
    {
      assert t < slot ==> TableAt(tablePos, rs, t);
    }
  }

  /** Step 2: zero header and zero tables; the table positions. */
  method WritePlaceholders(f: BinFile, tables: map<nat, seq<nat>>, hpos0: nat, ghost rs: seq<Rec>)
      returns (tablePos: map<nat, nat>)
    requires f.data == [] && f.pos == 0
    requires Grouped(tables, rs, |rs|) && hpos0 == RecPos(rs, |rs|)
    modifies f
    ensures TablePositions(tablePos, rs, SLOTS)
    ensures |f.data| == HEADER + TablePos(rs, SLOTS) - TablePos(rs, 0)
  {
    f.Write(Zeros(2048));
    tablePos := map[];
    var hpos := hpos0;
    for slot := 0 to 256
      invariant hpos == TablePos(rs, slot)
      invariant TablePositions(tablePos, rs, slot)
      invariant f.pos == |f.data| == HEADER + TablePos(rs, slot) - TablePos(rs, 0)
    {
      var hs := if slot in tables then tables[slot] else [];
      assert hs == Bucket(rs, slot);
      TablePositionNext(tablePos, rs, slot, hpos);
      tablePos := tablePos[slot := hpos];
      f.Write(Zeros(|hs| * 8));
      hpos := hpos + |hs| * 8;
    }
  }

  /** Step 3: the records, unless a length needs more than four bytes. */
  method WriteRecords(f: BinFile, rs: seq<Rec>) returns (ok: bool)
    requires Positioned(rs)
    requires HEADER <= |f.data| <= TablePos(rs, SLOTS)
    modifies f
    ensures ok <==> forall i :: 0 <= i < |rs| ==> |rs[i].key| < TWO32 && |rs[i].val| < TWO32
    ensures ok ==> RecordsOk(f.data, rs, |rs|)
    ensures ok ==> RecPos(rs, |rs|) <= |f.data| <= TablePos(rs, SLOTS)
  {
    hide RecPos, TablePos, RecordBytes, RecordsOk;
    TablePosMonotone(rs, 0, SLOTS);
    NothingWritten(f.data, rs);
    f.Seek(2048);
    for n := 0 to |rs|
      invariant f.pos == RecPos(rs, n)
      invariant RecordsOk(f.data, rs, n)
      invariant RecPos(rs, n) <= |f.data| <= TablePos(rs, SLOTS)
      invariant forall i :: 0 <= i < n ==> |rs[i].key| < TWO32 && |rs[i].val| < TWO32
    {
      var rec := rs[n];
      assert RightPlace(rs, n);
      if rec.klen >= TWO32 || rec.dlen >= TWO32 {
        return false;
      }
      ghost var before := f.data;
      WriteRecord(f, rec);
      RecPosMonotone(rs, n + 1, |rs|);
      RecordNext(before, rs, n);
      RecordEnds(rs, n);
    }
    ok := true;
  }

  lemma RecordEnds(rs: seq<Rec>, n: nat)
    requires n < |rs|
    ensures RecPos(rs, n + 1) == RecPos(rs, n) + RecordSize(rs[n])
  {
  }

  lemma NothingWritten(data: seq<byte>, rs: seq<Rec>)
    ensures RecPos(rs, 0) == 2048 && RecordsOk(data, rs, 0)
    ensures TablePos(rs, 0) == RecPos(rs, |rs|)
  {
  }

  lemma RecordNext(data: seq<byte>, rs: seq<Rec>, n: nat)
    requires n < |rs| && RecordsOk(data, rs, n)
    requires |rs[n].key| < TWO32 && |rs[n].val| < TWO32
    ensures RecordsOk(WriteAt(data, RecPos(rs, n), RecordBytes(rs[n])), rs, n + 1)
    ensures RecPos(rs, n + 1) <= |WriteAt(data, RecPos(rs, n), RecordBytes(rs[n]))|
  {
    var bs := RecordBytes(rs[n]);
    RecordsKept(data, rs, n, RecPos(rs, n), bs);
    WriteAtWritten(data, RecPos(rs, n), bs);
    assert RecordOk(WriteAt(data, RecPos(rs, n), bs), rs, n);
  }

  method WriteRecord(f: BinFile, rec: Rec)
    requires rec.klen == |rec.key| < TWO32 && rec.dlen == |rec.val| < TWO32
    modifies f
    ensures f.data == WriteAt(old(f.data), old(f.pos), RecordBytes(rec))
    ensures f.pos == old(f.pos) + RecordSize(rec)
  {
    f.Write(Le32(rec.klen));
    f.Write(Le32(rec.dlen));
    WriteAtConcat(old(f.data), old(f.pos), Le32(rec.klen), Le32(rec.dlen));
    f.Write(rec.key);
    WriteAtConcat(old(f.data), old(f.pos), Le32(rec.klen) + Le32(rec.dlen), rec.key);
    f.Write(rec.val);
    WriteAtConcat(old(f.data), old(f.pos), Le32(rec.klen) + Le32(rec.dlen) + rec.key, rec.val);
  }

  /** Step 4: all tables, in any order of the buckets, unless a position needs more than four bytes. */
  method WriteTables(f: BinFile, rs: seq<Rec>, tables: map<nat, seq<nat>>, tablePos: map<nat, nat>)
      returns (ok: bool)
    requires Positioned(rs) && Grouped(tables, rs, |rs|)
    requires TablePositions(tablePos, rs, SLOTS)
    requires RecordsOk(f.data, rs, |rs|)
    requires RecPos(rs, |rs|) <= |f.data| <= TablePos(rs, SLOTS)
    modifies f
    ensures ok <==> forall i {:trigger InFirst4G(rs, i)} :: 0 <= i < |rs| ==> InFirst4G(rs, i)
    ensures ok ==> RecordsOk(f.data, rs, |rs|)
    ensures ok ==> |f.data| == TablePos(rs, SLOTS)
    ensures ok ==> forall slot :: 0 <= slot < SLOTS ==> TableOk(f.data, rs, slot)
  {
    var todo := tables.Keys;
    while todo != {}
      invariant todo <= tables.Keys
      invariant RecordsOk(f.data, rs, |rs|)
      invariant RecPos(rs, |rs|) <= |f.data| <= TablePos(rs, SLOTS)
      invariant TablesOk(f.data, rs, tables.Keys - todo)
      invariant forall slot, j :: slot in tables.Keys - todo && 0 <= j < |tables[slot]| ==>
                  tables[slot][j] < |rs| && InFirst4G(rs, tables[slot][j])
      decreases |todo|
    {
      var slot :| slot in todo;
      ghost var done := tables.Keys - todo;
      assert TableAt(tablePos, rs, slot);
      ok := WriteBucket(f, rs, tables[slot], slot, tablePos[slot], done);
      if !ok {
        return;
      }
      todo := todo - {slot};
      assert tables.Keys - todo == done + {slot};
    }
    ok := true;
    AllPositionsFit(rs, tables);
    EmptyTables(f.data, rs, tables);
  }

  method WriteBucket(f: BinFile, rs: seq<Rec>, hs: seq<nat>, ghost slot: nat, pos: nat, ghost done: set<nat>)
      returns (ok: bool)
    requires Positioned(rs) && slot < SLOTS && slot !in done
    requires hs == Bucket(rs, slot) && hs != [] && pos == TablePos(rs, slot)
    requires RecordsOk(f.data, rs, |rs|)
    requires RecPos(rs, |rs|) <= |f.data| <= TablePos(rs, SLOTS)
    requires TablesOk(f.data, rs, done)
    modifies f
    ensures forall j :: 0 <= j < |hs| ==> hs[j] < |rs|
    ensures ok <==> forall j :: 0 <= j < |hs| ==> InFirst4G(rs, hs[j])
    ensures ok ==> RecordsOk(f.data, rs, |rs|)
    ensures ok ==> RecPos(rs, |rs|) <= |f.data| <= TablePos(rs, SLOTS)
    ensures ok ==> TablesOk(f.data, rs, done + {slot})
  {
    var placed := PlaceBucket(rs, hs, slot);
    ArrangedMembers(rs, slot, placed);
    BucketBounds(rs, slot, |rs|);
    ghost var before := f.data;
    f.Seek(pos);
    ghost var bs;
    ok, bs := WriteTable(f, rs, placed);
    assert forall j :: 0 <= j < |hs| ==> hs[j] in placed;
    assert forall j :: 0 <= j < |placed| ==> placed[j] in hs;
    if ok {
      TableNext(before, rs, slot, placed, bs, done);
    }
  }

  lemma ArrangedMembers(rs: seq<Rec>, slot: nat, placed: seq<nat>)
    requires Arranged(rs, slot, placed)
    ensures |placed| == |Bucket(rs, slot)|
    ensures forall r :: r in placed <==> r in Bucket(rs, slot)
    ensures forall j :: 0 <= j < |placed| ==> placed[j] < |rs|
  {
    var hs := Bucket(rs, slot);
    BucketBounds(rs, slot, |rs|);
    assert |multiset(placed)| == |multiset(hs)|;
    forall r ensures r in placed <==> r in hs {
      assert r in placed <==> r in multiset(placed);
      assert r in hs <==> r in multiset(hs);
    }
    assert forall j :: 0 <= j < |placed| ==> placed[j] in placed;
  }

  method WriteTable(f: BinFile, rs: seq<Rec>, placed: seq<nat>) returns (ok: bool, ghost bs: seq<byte>)
    requires Positioned(rs)
    requires forall j :: 0 <= j < |placed| ==> placed[j] < |rs|
    modifies f
    ensures ok <==> forall j :: 0 <= j < |placed| ==> InFirst4G(rs, placed[j])
    ensures ok ==> IsTable(bs, rs, placed) && f.data == WriteAt(old(f.data), old(f.pos), bs)
  {
    hide RecPos, IsTable, WriteAt;
    bs := [];
    EmptyCells(rs, placed, f.data, f.pos);
    for k := 0 to |placed|
      invariant forall j :: 0 <= j < k ==> InFirst4G(rs, placed[j])
      invariant IsTable(bs, rs, placed[..k])
      invariant f.data == WriteAt(old(f.data), old(f.pos), bs)
      invariant f.pos == old(f.pos) + |bs|
    {
      var r := placed[k];
      assert RightPlace(rs, r);
      if rs[r].pos >= TWO32 {
        assert !InFirst4G(rs, placed[k]);
        return false, bs;
      }
      WriteCell(f, rs[r].h, rs[r].pos);
      WriteAtConcat(old(f.data), old(f.pos), bs, CellBytes(rs, r));
      IsTableNext(bs, rs, placed, k);
      bs := bs + CellBytes(rs, r);
    }
    assert placed[..|placed|] == placed;
    ok := true;
  }

  lemma EmptyCells(rs: seq<Rec>, placed: seq<nat>, data: seq<byte>, pos: nat)
    requires forall j :: 0 <= j < |placed| ==> placed[j] < |rs|
    ensures IsTable([], rs, placed[..0])
    ensures WriteAt(data, pos, []) == data
  {
  }

  lemma IsTableNext(bs: seq<byte>, rs: seq<Rec>, placed: seq<nat>, k: nat)
    requires k < |placed| && IsTable(bs, rs, placed[..k])
    requires placed[k] < |rs| && RecPos(rs, placed[k]) < TWO32
    ensures IsTable(bs + CellBytes(rs, placed[k]), rs, placed[..k + 1])
  {
    hide RecPos, CellBytes;
    var cell, front := CellBytes(rs, placed[k]), placed[..k + 1];
    var more := bs + cell;
    CellLast(bs, cell, k);
    forall j | 0 <= j < k ensures CellAt(more, rs, front, j) {
      assert CellAt(bs, rs, placed[..k], j);
      CellKept(bs, cell, j);
    }
  }

  lemma CellLast(bs: seq<byte>, cell: seq<byte>, k: nat)
    requires |bs| == 8 * k && |cell| == 8
    ensures (bs + cell)[8 * k..8 * k + 8] == cell
  {
  }

  lemma CellKept(bs: seq<byte>, more: seq<byte>, j: nat)
    requires 8 * j + 8 <= |bs|
    ensures (bs + more)[8 * j..8 * j + 8] == bs[8 * j..8 * j + 8]
  {
  }

  method WriteCell(f: BinFile, h: u32, pos: u32)
    modifies f
    ensures f.data == WriteAt(old(f.data), old(f.pos), Le32(h) + Le32(pos))
    ensures f.pos == old(f.pos) + 8
  {
    f.Write(Le32(h));
    f.Write(Le32(pos));
    WriteAtConcat(old(f.data), old(f.pos), Le32(h), Le32(pos));
  }

  ghost predicate TablesOk(data: seq<byte>, rs: seq<Rec>, done: set<nat>) {
    forall t :: t in done ==> t < SLOTS && TableOk(data, rs, t)
  }

  lemma TableNext(data: seq<byte>, rs: seq<Rec>, slot: nat, placed: seq<nat>, bs: seq<byte>, done: set<nat>)
    requires slot < SLOTS && slot !in done && placed != []
    requires Arranged(rs, slot, placed) && |placed| == |Bucket(rs, slot)|
    requires IsTable(bs, rs, placed)
    requires RecordsOk(data, rs, |rs|)
    requires RecPos(rs, |rs|) <= |data| <= TablePos(rs, SLOTS)
    requires TablesOk(data, rs, done)
    ensures var after := WriteAt(data, TablePos(rs, slot), bs);
            && RecordsOk(after, rs, |rs|)
            && RecPos(rs, |rs|) <= |after| <= TablePos(rs, SLOTS)
            && TablesOk(after, rs, done + {slot})
  {
    hide Bucket;
    hide RecPos;
    hide RecordsOk;
    hide TablePos;
    hide TableOk;
    var pos, after := TablePos(rs, slot), WriteAt(data, TablePos(rs, slot), bs);
    TablePosMonotone(rs, 0, slot);
    TablePosMonotone(rs, slot + 1, SLOTS);
    TableEnd(rs, slot);
    RecordsKept(data, rs, |rs|, pos, bs);
    WriteAtWritten(data, pos, bs);
    TableWritten(after, rs, slot, placed);
    forall t | t in done
      ensures TableOk(after, rs, t)
    {
      OtherTableKept(data, rs, t, slot, bs);
    }
  }

  lemma TableEnd(rs: seq<Rec>, slot: nat)
    ensures TablePos(rs, slot + 1) == TablePos(rs, slot) + 8 * |Bucket(rs, slot)|
  {
  }

  lemma TableWritten(data: seq<byte>, rs: seq<Rec>, slot: nat, placed: seq<nat>)
    requires TableHolds(data, rs, slot, placed)
    ensures TableOk(data, rs, slot)
  {
    hide TableHolds;
  }

  lemma OtherTableKept(data: seq<byte>, rs: seq<Rec>, t: nat, slot: nat, bs: seq<byte>)
    requires t != slot && TableOk(data, rs, t) && |bs| == 8 * |Bucket(rs, slot)|
    ensures TableOk(WriteAt(data, TablePos(rs, slot), bs), rs, t)
  {
    if t < slot {
      TablePosMonotone(rs, t + 1, slot);
    } else {
      TablePosMonotone(rs, slot + 1, t);
    }
    TableKept(data, rs, t, TablePos(rs, slot), bs);
  }

  /** Every record is in some bucket, so all positions were checked. */
  lemma AllPositionsFit(rs: seq<Rec>, tables: map<nat, seq<nat>>)
    requires Grouped(tables, rs, |rs|)
    requires forall slot, j :: slot in tables && 0 <= j < |tables[slot]| ==>
               tables[slot][j] < |rs| && InFirst4G(rs, tables[slot][j])
    ensures forall i {:trigger InFirst4G(rs, i)} :: 0 <= i < |rs| ==> InFirst4G(rs, i)
  {
    forall i | 0 <= i < |rs|
      ensures InFirst4G(rs, i)
    {
      var slot: nat := rs[i].h % 256;
      BucketBounds(rs, slot, |rs|);
      assert i in Bucket(rs, slot);
      assert slot in tables;
    }
  }

  /** With every non-empty table written, the file ends where the last table ends. */
  lemma EmptyTables(data: seq<byte>, rs: seq<Rec>, tables: map<nat, seq<nat>>)
    requires Grouped(tables, rs, |rs|)
    requires RecPos(rs, |rs|) <= |data| <= TablePos(rs, SLOTS)
    requires forall slot :: slot in tables ==> TableOk(data, rs, slot)
    ensures |data| == TablePos(rs, SLOTS)
    ensures forall slot :: 0 <= slot < SLOTS ==> TableOk(data, rs, slot)
  {
    hide TablePos;
    hide TableOk;
    hide Bucket;
    hide RecPos;
    forall slot | 0 <= slot < SLOTS
      ensures TableOk(data, rs, slot) || Bucket(rs, slot) == []
    {
      GroupedHas(tables, rs, slot);
    }
    ReachesEnd(data, rs, SLOTS);
    forall slot | 0 <= slot < SLOTS
      ensures TableOk(data, rs, slot)
    {
      if Bucket(rs, slot) == [] {
        TablePosMonotone(rs, slot + 1, SLOTS);
        EmptyTable(data, rs, slot);
      }
    }
  }

  lemma GroupedHas(tables: map<nat, seq<nat>>, rs: seq<Rec>, slot: nat)
    requires Grouped(tables, rs, |rs|) && slot < SLOTS
    ensures slot in tables <==> Bucket(rs, slot) != []
  {
    hide BucketUpTo;
  }

  lemma EmptyTable(data: seq<byte>, rs: seq<Rec>, slot: nat)
    requires Bucket(rs, slot) == [] && TablePos(rs, slot + 1) <= |data|
    ensures TableOk(data, rs, slot)
  {
    hide BucketUpTo;
    assert TableHolds(data, rs, slot, []);
  }

  lemma {:induction false} ReachesEnd(data: seq<byte>, rs: seq<Rec>, n: nat)
    requires RecPos(rs, |rs|) <= |data|
    requires forall slot :: 0 <= slot < n && Bucket(rs, slot) != [] ==> TableOk(data, rs, slot)
    ensures TablePos(rs, n) <= |data|
  {
    if n > 0 {
      if Bucket(rs, n - 1) == [] {
        ReachesEnd(data, rs, n - 1);
      } else {
        assert TableOk(data, rs, n - 1);
      }
    }
  }

  ghost predicate HeaderWritten(data: seq<byte>, rs: seq<Rec>, slot: nat) {
    && TablePos(rs, slot) < TWO32 && |Bucket(rs, slot)| < TWO32
    && |data| >= 8 * slot + 8 && data[8 * slot..8 * slot + 8] == HeaderBytes(rs, slot)
  }

  lemma NotFits(rs: seq<Rec>, slot: nat)
    requires slot < SLOTS && (TablePos(rs, slot) >= TWO32 || |Bucket(rs, slot)| >= TWO32)
    ensures !Fits(rs)
  {
    TablePosMonotone(rs, slot, 255);
    BucketBounds(rs, slot, |rs|);
    RecPosMonotone(rs, 0, |rs|);
  }

  lemma HeadersKept(data: seq<byte>, rs: seq<Rec>, slot: nat)
    requires TablePos(rs, slot) < TWO32 && |Bucket(rs, slot)| < TWO32
    requires 8 * slot + 8 <= |data|
    requires forall t :: 0 <= t < slot ==> HeaderWritten(data, rs, t)
    ensures forall t :: 0 <= t <= slot ==> HeaderWritten(WriteAt(data, 8 * slot, HeaderBytes(rs, slot)), rs, t)
  {
    hide WriteAt, TablePos, Bucket, HeaderBytes;
    var bs := HeaderBytes(rs, slot);
    WriteAtWritten(data, 8 * slot, bs);
    forall t | 0 <= t <= slot
      ensures HeaderWritten(WriteAt(data, 8 * slot, bs), rs, t)
    {
      if t < slot {
        assert HeaderWritten(data, rs, t);
        WriteAtKeeps(data, 8 * slot, bs, 8 * t, 8 * t + 8);
      }
    }
  }

  /** The file with its first n header entries written. */
  ghost predicate HeaderPhase(data: seq<byte>, rs: seq<Rec>, n: nat) {
    && |data| == TablePos(rs, SLOTS)
    && RecordsOk(data, rs, |rs|)
    && (forall t :: 0 <= t < SLOTS ==> TableOk(data, rs, t))
    && (forall t :: 0 <= t < n ==> HeaderWritten(data, rs, t))
  }

  lemma HeaderNext(data: seq<byte>, rs: seq<Rec>, slot: nat)
    requires slot < SLOTS && TablePos(rs, slot) < TWO32 && |Bucket(rs, slot)| < TWO32
    requires HeaderPhase(data, rs, slot)
    ensures HeaderPhase(WriteAt(data, 8 * slot, HeaderBytes(rs, slot)), rs, slot + 1)
  {
    var bs := HeaderBytes(rs, slot);
    TablePosMonotone(rs, 0, SLOTS);
    RecPosMonotone(rs, 0, |rs|);
    RecordsKept(data, rs, |rs|, 8 * slot, bs);
    HeadersKept(data, rs, slot);
    var after := WriteAt(data, 8 * slot, bs);
    forall t | 0 <= t < SLOTS
      ensures TableOk(after, rs, t)
    {
      TablePosMonotone(rs, 0, t);
      TableKept(data, rs, t, 8 * slot, bs);
    }
  }

  lemma HeaderDone(data: seq<byte>, rs: seq<Rec>)
    requires HeaderPhase(data, rs, SLOTS)
    ensures Fits(rs) && IsImage(data, rs)
  {
    assert HeaderWritten(data, rs, 255);
    forall slot | 0 <= slot < SLOTS
      ensures HeaderOk(data, rs, slot)
    {
      assert HeaderWritten(data, rs, slot);
      PositionsFit(rs, slot);
    }
  }

  /** Step 5: position and slot count of every table, unless a position needs more than four bytes. */
  method WriteHeader(f: BinFile, tables: map<nat, seq<nat>>, tablePos: map<nat, nat>, ghost rs: seq<Rec>)
      returns (ok: bool)
    requires Grouped(tables, rs, |rs|)
    requires TablePositions(tablePos, rs, SLOTS)
    requires HeaderPhase(f.data, rs, 0)
    modifies f
    ensures ok <==> Fits(rs)
    ensures ok ==> IsImage(f.data, rs)
  {
    f.Seek(0);
    for slot := 0 to 256
      invariant f.pos == 8 * slot
      invariant HeaderPhase(f.data, rs, slot)
    {
      var hs := if slot in tables then tables[slot] else [];
      assert hs == Bucket(rs, slot);
      assert TableAt(tablePos, rs, slot);
      if tablePos[slot] >= TWO32 || |hs| >= TWO32 {
        NotFits(rs, slot);
        return false;
      }
      HeaderNext(f.data, rs, slot);
      WriteCell(f, tablePos[slot], |hs|);
    }
    HeaderDone(f.data, rs);
    ok := true;
  }

  /** If the last table position fits, no earlier conversion can have failed. */
  lemma TooLong(rs: seq<Rec>)
    requires exists i :: 0 <= i < |rs| && !PosFits(rs, i)
    ensures !Fits(rs)
  {
    if Fits(rs) {
      PositionsFit(rs, 0);
    }
  }

  /** End of the data section: 2048 plus the sizes of all records. */
  method DataEnd(rs: seq<Rec>) returns (hpos: nat)
    requires Positioned(rs)
    ensures hpos == RecPos(rs, |rs|)
  {
    hpos := 2048;
    for i := 0 to |rs|
      invariant hpos == RecPos(rs, i)
    {
      hpos := hpos + |rs[i].key| + |rs[i].val| + 8;
    }
  }

  /**
   * The whole writer. It fails, as the integer conversions do, exactly when the last table would start
   * at or beyond 2^32; otherwise the file is the image of the entries.
   */
  method WriteCdb(es: seq<Entry>) returns (f: BinFile, ok: bool)
    ensures fresh(f)
    ensures ok <==> Fits(RecordsOf(es))
    ensures ok ==> IsImage(f.data, RecordsOf(es)) && Dumps(f.data, es)
  {
    hide Dumps;
    var rs := CollectRecords(es);
    RecordsOfFacts(es);
    var tables := GroupBySlot(rs);
    var hpos := DataEnd(rs);
    f := new BinFile();
    var tablePos := WritePlaceholders(f, tables, hpos, rs);
    RecPosMonotone(rs, 0, |rs|);
    TablePosMonotone(rs, 0, SLOTS);
    ok := WriteRecords(f, rs);
    if !ok {
      ghost var i :| 0 <= i < |rs| && !(|rs[i].key| < TWO32 && |rs[i].val| < TWO32);
      assert !PosFits(rs, i);
      TooLong(rs);
      return;
    }
    ok := WriteTables(f, rs, tables, tablePos);
    if !ok {
      ghost var i :| 0 <= i < |rs| && !InFirst4G(rs, i);
      assert !PosFits(rs, i);
      TooLong(rs);
      return;
    }
    ok := WriteHeader(f, tables, tablePos, rs);
    if ok {
      DumpRoundTrip(f.data, es);
    }
  }
}
