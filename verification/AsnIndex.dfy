/** Loading a compiled table and answering addresses from its bytes. */
module AsnIndex {
  import opened Basics
  import opened Bytes
  import opened AsnSweep
  import opened AsnTable
  import opened AsnFile

  /** Up to n bytes from an offset; reading at the end of the file gives nothing at all. */
  function Read(f: bytes, at: nat, n: nat): Option<bytes> {
    if |f| <= at then None
    else if |f| < at + n then Some(f[at..])
    else Some(f[at..at + n])
  }

  function ReadWord(f: bytes, at: nat): Option<u32> {
    var w := Read(f, at, 4);
    if w.None? || |w.value| < 4 then None else Some(FromBe32(w.value))
  }

  /** The lookup state: the rows and the names as they were read, and the number of rows. */
  datatype State = State(loaded: bool, rows: Option<bytes>, names: Option<bytes>, count: nat)

  const FRESH := State(false, None, None, 0)

  /** Loading replaces rows and names before it checks the rows; a load that fails earlier changes nothing. */
  function LoadInto(s: State, file: Option<bytes>): State {
    if file.None? then s
    else
      var f := file.value;
      if Read(f, 0, 4) != Some(MAGIC) then s
      else
        var count, size := ReadWord(f, 4), ReadWord(f, 8);
        if count.None? || size.None? then s
        else
          var rows := Read(f, 12, ROW * count.value);
          var names := Read(f, 12 + (if rows.Some? then |rows.value| else 0), size.value);
          if rows.None? || |rows.value| < ROW * count.value then s.(rows := rows, names := names)
          else State(true, rows, names, count.value)
  }

  /** No answer, an AS number with its name, or the run-time error of reading a byte that is not there. */
  datatype Answer = Nobody | Network(asn: int, name: bytes) | Fault

  function StartIp(rows: Option<bytes>, mid: nat): Option<u32>
    requires mid >= 1
  {
    if rows.Some? && ROW * (mid - 1) + 4 <= |rows.value| then Some(WordAt(rows.value, ROW * (mid - 1))) else None
  }

  function EntryAt(rows: Option<bytes>, i: nat): Option<Entry>
    requires i >= 1
  {
    if rows.Some? && ROW * i <= |rows.value| then Some(RowOf(rows.value[ROW * (i - 1)..ROW * i])) else None
  }

  /** All rows the state counts are there, and so is the name block. */
  predicate Whole(s: State) {
    s.rows.Some? && s.names.Some? && ROW * s.count <= |s.rows.value|
  }

  lemma StartOfEntry(rows: Option<bytes>, i: nat)
    requires i >= 1 && rows.Some? && ROW * i <= |rows.value|
    ensures StartIp(rows, i) == Some(EntryAt(rows, i).value.start)
  {
    var at := ROW * (i - 1);
    assert rows.value[at..at + ROW][0..4] == rows.value[at..at + 4];
  }

  /** The rows are in ascending order of their first address. */
  ghost predicate Ascending(s: State)
    requires Whole(s)
  {
    forall j, k :: 1 <= j < k <= s.count ==> EntryAt(s.rows, j).value.start <= EntryAt(s.rows, k).value.start
  }

  ghost predicate StartsUpTo(s: State, x: u32, k: nat)
    requires Whole(s) && k <= s.count
  {
    forall j :: 1 <= j <= k ==> EntryAt(s.rows, j).value.start <= x
  }

  ghost predicate StartsAfter(s: State, x: u32, k: nat)
    requires Whole(s) && k <= s.count
  {
    forall j :: k < j <= s.count ==> x < EntryAt(s.rows, j).value.start
  }

  /** Row k is the last one that starts at or below x; k is 0 when there is none. */
  ghost predicate LastAtOrBelow(s: State, x: u32, k: nat)
    requires Whole(s)
  {
    k <= s.count && StartsUpTo(s, x, k) && StartsAfter(s, x, k)
  }

  /** What one probe tells about all rows on one side. */
  lemma Probe(s: State, x: u32, mid: nat)
    requires Whole(s) && 1 <= mid <= s.count
    ensures StartIp(s.rows, mid).Some? && EntryAt(s.rows, mid).Some?
    ensures Ascending(s) && StartIp(s.rows, mid).value <= x ==> StartsUpTo(s, x, mid)
    ensures Ascending(s) && StartIp(s.rows, mid).value > x ==> StartsAfter(s, x, mid - 1)
  {
    hide RowOf, WordAt;
    StartOfEntry(s.rows, mid);
    forall j | 1 <= j <= s.count && j != mid ensures EntryAt(s.rows, j).Some? {
    }
  }

  lemma NoRows(s: State, x: u32)
    requires Whole(s)
    ensures StartsUpTo(s, x, 0) && StartsAfter(s, x, s.count)
  {
  }

  /** The answer row k gives. */
  function RowAnswer(s: State, x: u32, k: nat): Answer
    requires Whole(s) && k <= s.count
  {
    if k == 0 then Nobody
    else
      var e := EntryAt(s.rows, k).value;
      if e.start <= x <= e.end then Network(e.tag.asn, NameAt(s.names.value, e.tag.off)) else Nobody
  }

  /**
   * The search among rows low to high: the last row found at or below x, or low - 1; None where it
   * reads a row that is not there.
   */
  function Search(rows: Option<bytes>, x: u32, low: nat, high: nat): (r: Option<nat>)
    requires 1 <= low <= high + 1
    ensures r.Some? ==> low - 1 <= r.value <= high
    decreases high + 1 - low
  {
    if low > high then Some(low - 1)
    else
      var mid := (low + high) / 2;
      var start := StartIp(rows, mid);
      if start.None? then None
      else if start.value <= x then Search(rows, x, mid + 1, high)
      else Search(rows, x, low, mid - 1)
  }

  /** The answer once the search has stopped at this row. */
  function Verdict(s: State, x: u32, row: nat): Answer {
    if row == 0 then Nobody
    else
      var e := EntryAt(s.rows, row);
      if e.None? then Fault
      else if !(e.value.start <= x <= e.value.end) then Nobody
      else if s.names.None? then Fault
      else Network(e.value.tag.asn, NameAt(s.names.value, e.value.tag.off))
  }

  /** What a lookup answers in any state, whole or not. */
  function LookupOf(s: State, x: u32): Answer {
    if !s.loaded || s.count == 0 then Nobody
    else
      var row := Search(s.rows, x, 1, s.count);
      if row.None? then Fault else Verdict(s, x, row.value)
  }

  /** A whole table never faults. */
  lemma {:induction false} SearchWhole(s: State, x: u32, low: nat, high: nat)
    requires Whole(s) && 1 <= low <= high + 1 <= s.count + 1
    ensures Search(s.rows, x, low, high).Some?
    decreases high + 1 - low
  {
    hide EntryAt, StartIp;
    if low <= high {
      var mid := (low + high) / 2;
      Probe(s, x, mid);
      SearchWhole(s, x, mid + 1, high);
      SearchWhole(s, x, low, mid - 1);
    }
  }

  lemma WholeNeverFaults(s: State, x: u32)
    requires Whole(s)
    ensures LookupOf(s, x) != Fault
  {
    hide Search, StartIp;
    SearchWhole(s, x, 1, s.count);
    if s.loaded && s.count > 0 && Search(s.rows, x, 1, s.count) != Some(0) {
      Probe(s, x, Search(s.rows, x, 1, s.count).value);
    }
  }

  /** Over ascending rows the search stops at the last row at or below x. */
  lemma {:induction false} SearchFinds(s: State, x: u32, low: nat, high: nat)
    requires Whole(s) && Ascending(s) && 1 <= low <= high + 1 <= s.count + 1
    requires StartsUpTo(s, x, low - 1) && StartsAfter(s, x, high)
    ensures Search(s.rows, x, low, high).Some? && LastAtOrBelow(s, x, Search(s.rows, x, low, high).value)
    decreases high + 1 - low
  {
    hide EntryAt, StartIp, Ascending, StartsUpTo, StartsAfter, Whole;
    if low <= high {
      var mid := (low + high) / 2;
      Probe(s, x, mid);
      if StartIp(s.rows, mid).value <= x {
        SearchFinds(s, x, mid + 1, high);
      } else {
        SearchFinds(s, x, low, mid - 1);
      }
    }
  }

  lemma WholeAnswer(s: State, x: u32)
    requires s.loaded && s.count > 0 && Whole(s) && Ascending(s)
    ensures exists k: nat :: LastAtOrBelow(s, x, k) && LookupOf(s, x) == RowAnswer(s, x, k)
  {
    hide Ascending, StartsUpTo, StartsAfter, StartIp, NameAt;
    NoRows(s, x);
    SearchFinds(s, x, 1, s.count);
    var k := Search(s.rows, x, 1, s.count).value;
    if k > 0 {
      Probe(s, x, k);
    }
    assert LookupOf(s, x) == RowAnswer(s, x, k);
  }

  /** The module variables of the lookup script. */
  class Index {
    var loaded: bool
    var rows: Option<bytes>
    var names: Option<bytes>
    var count: nat

    constructor ()
      ensures Now() == FRESH
    {
      loaded, rows, names, count := false, None, None, 0;
    }

    function Now(): State
      reads this
    {
      State(loaded, rows, names, count)
    }

    /** Loads the file; None stands for a file that cannot be opened. */
    method Load(file: Option<bytes>)
      modifies this
      ensures Now() == LoadInto(old(Now()), file)
    {
      if file.None? {
        return;
      }
      var f := file.value;
      if Read(f, 0, 4) != Some(MAGIC) {
        return;
      }
      var n := ReadWord(f, 4);
      var size := ReadWord(f, 8);
      if n.None? || size.None? {
        return;
      }
      rows := Read(f, 12, ROW * n.value);
      names := Read(f, 12 + (if rows.Some? then |rows.value| else 0), size.value);
      if rows.None? || |rows.value| < ROW * n.value {
        return;
      }
      count := n.value;
      loaded := true;
    }

    /** Binary search for the last row at or below the address; one check decides, as rows are disjoint. */
    method Lookup(x: u32) returns (r: Answer)
      ensures r == LookupOf(Now(), x)
    {
      hide StartIp, EntryAt, NameAt;
      if !loaded || count == 0 {
        return Nobody;
      }
      var low, high, answer := 1, count, 0;
      while low <= high
        invariant 1 <= low <= high + 1 && answer == low - 1
        invariant Search(rows, x, low, high) == Search(rows, x, 1, count)
      {
        var mid := (low + high) / 2;
        var start := StartIp(rows, mid);
        if start.None? {
          return Fault;
        }
        if start.value <= x {
          answer := mid;
          low := mid + 1;
        } else {
          high := mid - 1;
        }
      }
      if answer == 0 {
        return Nobody;
      }
      var e := EntryAt(rows, answer);
      if e.None? {
        return Fault;
      }
      if e.value.start <= x <= e.value.end {
        if names.None? {
          return Fault;
        }
        return Network(e.value.tag.asn, NameAt(names.value, e.value.tag.off));
      }
      return Nobody;
    }
  }

  // ---------------------------------------------------------------- built tables

  lemma HeaderReads(flat: seq<Entry>, block: bytes, f: bytes)
    requires |flat| < TWO32 && |block| < TWO32 && |f| >= 12 && f[..12] == Header(flat, block)
    ensures Read(f, 0, 4) == Some(MAGIC)
    ensures ReadWord(f, 4) == Some(|flat|) && ReadWord(f, 8) == Some(|block|)
  {
    assert f[0..4] == f[..12][0..4] == MAGIC;
    assert f[4..8] == f[..12][4..8] == Be32(|flat|);
    assert f[8..12] == f[..12][8..12] == Be32(|block|);
    WordRoundTrip(|flat|);
    WordRoundTrip(|block|);
  }

  /** Loading a table brings back its rows and names. */
  lemma LoadsTable(s: State, flat: seq<Entry>, block: bytes)
    requires Packs(flat, block) && flat != [] && block != []
    ensures LoadInto(s, Some(Table(flat, block))) == State(true, Some(RowsBytes(flat)), Some(block), |flat|)
  {
    hide RowsBytes, Header, AllPackable, Read, ReadWord, FromBe32;
    var head, rows := Header(flat, block), RowsBytes(flat);
    Pieces(head, rows, block);
    HeaderReads(flat, block, head + rows + block);
  }

  lemma Pieces(head: bytes, rows: bytes, block: bytes)
    requires |head| == 12 && rows != [] && block != []
    ensures (head + rows + block)[..12] == head
    ensures Read(head + rows + block, 12, |rows|) == Some(rows)
    ensures Read(head + rows + block, 12 + |rows|, |block|) == Some(block)
  {
    var f := head + rows + block;
    assert f[12..12 + |rows|] == rows;
    assert f[12 + |rows|..12 + |rows| + |block|] == block;
  }

  lemma LoadedRow(s: State, flat: seq<Entry>, block: bytes, k: nat)
    requires Packs(flat, block) && s == State(true, Some(RowsBytes(flat)), Some(block), |flat|) && 1 <= k <= |flat|
    ensures Whole(s) && EntryAt(s.rows, k) == Some(flat[k - 1])
  {
    hide RowsBytes, RowBytes, RowOf;
    RowAt(flat, k - 1);
    RowRoundTrip(flat[k - 1]);
  }

  /** The private blocks come first, so a built table is never empty. */
  lemma {:induction false} SourcesStart(rows: seq<Row>)
    ensures |Sources(rows)| >= |PRIVATE| && Sources(rows)[..|PRIVATE|] == PRIVATE
  {
    if rows != [] {
      SourcesStart(rows[..|rows| - 1]);
    }
  }

  /** What longest-prefix match says of x. */
  ghost predicate IsLongestPrefixAnswer(ss: seq<Source>, x: u32, r: Answer)
    requires forall j :: 0 <= j < |ss| ==> ss[j].mask <= 32
  {
    match r
    case Fault => false
    case Nobody => forall i :: 0 <= i < |ss| ==> !Matches(ss[i], x)
    case Network(asn, name) => NamesLongest(ss, x, asn, name)
  }

  /** In a built table the last row at or below x answers as longest-prefix match does. */
  lemma LastRowAnswers(ss: seq<Source>, es: seq<Entry>, flat: seq<Entry>, block: bytes, s: State, x: u32, k: nat)
    requires TableFor(ss, es, flat, block) && Packs(flat, block)
    requires forall j :: 0 <= j < |ss| ==> ss[j].mask <= 32
    requires s == State(true, Some(RowsBytes(flat)), Some(block), |flat|) && Whole(s) && LastAtOrBelow(s, x, k)
    ensures IsLongestPrefixAnswer(ss, x, RowAnswer(s, x, k))
  {
    hide Matches, RowsBytes, EntryAt, NameAt, Whole, Packs, EntriesFor, NamesLongest, Described;
    if k > 0 {
      LoadedRow(s, flat, block, k);
    }
    if k > 0 && Covers(flat[k - 1], x) {
      IntervalNamesLongest(ss, es, flat, block, x, k - 1);
    } else {
      forall j | 0 <= j < |flat| ensures !Covers(flat[j], x) {
        LoadedRow(s, flat, block, j + 1);
        assert j < k - 1 ==> flat[j].end < flat[k - 1].start;
      }
      forall i: nat | i < |ss| ensures !Matches(ss[i], x) {
        if Matches(ss[i], x) {
          MatchedIsCovered(ss, es, flat, block, x, i);
        }
      }
    }
  }

  lemma BuiltAscends(flat: seq<Entry>, block: bytes, s: State)
    requires Packs(flat, block) && Disjoint(flat) && Whole(s)
    requires s == State(true, Some(RowsBytes(flat)), Some(block), |flat|)
    ensures Ascending(s)
  {
    hide RowsBytes, EntryAt, Whole, Packs;
    forall j, k | 1 <= j < k <= s.count
      ensures EntryAt(s.rows, j).Some? && EntryAt(s.rows, k).Some?
      ensures EntryAt(s.rows, j).value.start <= EntryAt(s.rows, k).value.start
    {
      LoadedRow(s, flat, block, j);
      LoadedRow(s, flat, block, k);
      assert flat[j - 1].end < flat[k - 1].start;
    }
  }

  lemma BuiltNotEmpty(ss: seq<Source>, es: seq<Entry>, flat: seq<Entry>, block: bytes)
    requires TableFor(ss, es, flat, block) && ss != []
    ensures flat != [] && block != []
  {
    hide Covers, Disjoint;
    assert EntryFor(block, ss[0], es[0]);
    var x := ss[0].ip % TWO32;
    MatchedIsCovered(ss, es, flat, block, x, 0);
  }

  /** The state a complete table is loaded into. */
  ghost predicate TableState(flat: seq<Entry>, block: bytes, s: State) {
    Packs(flat, block) && flat != [] && s == State(true, Some(RowsBytes(flat)), Some(block), |flat|)
  }

  /** A working index for these blocks. */
  ghost predicate Working(ss: seq<Source>, s: State) {
    exists es, flat, block :: TableFor(ss, es, flat, block) && TableState(flat, block, s)
  }

  /** Whatever was loaded before, loading a built file makes the index work. */
  lemma BuiltWorks(rows: seq<Row>, f: bytes, before: State)
    requires Built(Sources(rows), f)
    ensures Working(Sources(rows), LoadInto(before, Some(f)))
  {
    hide TableFor, Packs, Table, LoadInto, RowsBytes, Sources;
    var ss := Sources(rows);
    var es, flat, block :| TableFor(ss, es, flat, block) && Packs(flat, block) && f == Table(flat, block);
    SourcesStart(rows);
    BuiltNotEmpty(ss, es, flat, block);
    LoadsTable(before, flat, block);
    assert TableState(flat, block, LoadInto(before, Some(f)));
  }

  /** A working index answers every address as longest-prefix match does. */
  lemma WorkingAnswers(ss: seq<Source>, s: State, x: u32)
    requires Working(ss, s)
    requires forall j :: 0 <= j < |ss| ==> ss[j].mask <= 32
    ensures IsLongestPrefixAnswer(ss, x, LookupOf(s, x))
  {
    hide TableFor, Packs, RowsBytes, IsLongestPrefixAnswer, RowAnswer, LookupOf, StartsUpTo, StartsAfter;
    var es, flat, block :| TableFor(ss, es, flat, block) && TableState(flat, block, s);
    LoadedRow(s, flat, block, 1);
    TableDisjoint(ss, es, flat, block);
    BuiltAscends(flat, block, s);
    WholeAnswer(s, x);
    var k: nat :| LastAtOrBelow(s, x, k) && LookupOf(s, x) == RowAnswer(s, x, k);
    LastRowAnswers(ss, es, flat, block, s, x, k);
  }

  /** Whatever was loaded before, a built file answers every address as longest-prefix match does. */
  lemma LongestPrefixMatch(rows: seq<Row>, f: bytes, before: State, x: u32)
    requires Built(Sources(rows), f)
    ensures IsLongestPrefixAnswer(Sources(rows), x, LookupOf(LoadInto(before, Some(f)), x))
  {
    hide LoadInto, Sources, Working, Built, LookupOf, IsLongestPrefixAnswer;
    BuiltWorks(rows, f, before);
    WorkingAnswers(Sources(rows), LoadInto(before, Some(f)), x);
  }

  lemma TableDisjoint(ss: seq<Source>, es: seq<Entry>, flat: seq<Entry>, block: bytes)
    requires TableFor(ss, es, flat, block)
    ensures Disjoint(flat)
  {
  }
}
