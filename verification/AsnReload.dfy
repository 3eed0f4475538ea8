/** What reloading does when the build has left an incomplete file. */
module AsnReload {
  import opened Basics
  import opened Bytes
  import opened AsnSweep
  import opened AsnTable
  import opened AsnFile
  import opened AsnIndex

  /**
   * What the bytes of the rows show: the first address of every row of p, and of the first q rows all
   * else as well. A row that is cut behind its first address is in p but not among the q.
   */
  ghost predicate Shows(rows: Option<bytes>, p: seq<Entry>, q: nat) {
    && q <= |p|
    && (forall j: nat :: 1 <= j ==> StartIp(rows, j) == if j <= |p| then Some(p[j - 1].start) else None)
    && (forall j: nat :: 1 <= j ==> EntryAt(rows, j) == if j <= q then Some(p[j - 1]) else None)
  }

  /** What is read of n bytes of rows: nothing at all when there are none. */
  function RowsLeft(flat: seq<Entry>, k: nat, n: nat): Option<bytes>
    requires k <= |flat| && AllPackable(flat[..k]) && n <= ROW * k
  {
    if n == 0 then None else Some(RowsBytes(flat[..k])[..n])
  }

  /** Rows of which n bytes are there in full, and rows whose first address is there. */
  function WholeRows(n: nat): nat {
    n / ROW
  }

  function StartedRows(n: nat): nat {
    (n + 13) / ROW
  }

  /** Cutting rows after n bytes leaves the whole rows and perhaps one first address more. */
  lemma CutShows(flat: seq<Entry>, k: nat, n: nat)
    requires k <= |flat| && AllPackable(flat[..k]) && n <= ROW * k
    ensures StartedRows(n) <= k && Shows(RowsLeft(flat, k, n), flat[..StartedRows(n)], WholeRows(n))
  {
    hide RowsBytes, RowOf, WordAt;
    var rows, p, q := RowsLeft(flat, k, n), flat[..StartedRows(n)], WholeRows(n);
    assert q <= StartedRows(n) <= k;
    forall j: nat | 1 <= j ensures StartIp(rows, j) == if j <= |p| then Some(p[j - 1].start) else None {
      if j <= |p| {
        CutStart(flat, k, n, j);
      }
    }
    forall j: nat | 1 <= j ensures EntryAt(rows, j) == if j <= q then Some(p[j - 1]) else None {
      if j <= q {
        CutEntry(flat, k, n, j);
      }
    }
  }

  lemma CutStart(flat: seq<Entry>, k: nat, n: nat, j: nat)
    requires k <= |flat| && AllPackable(flat[..k]) && n <= ROW * k && 1 <= j && ROW * (j - 1) + 4 <= n
    ensures j <= k && StartIp(RowsLeft(flat, k, n), j) == Some(flat[j - 1].start)
  {
    hide RowsBytes, RowBytes;
    var all, at := RowsBytes(flat[..k]), ROW * (j - 1);
    RowAt(flat[..k], j - 1);
    RowRoundTrip(flat[j - 1]);
    assert all[..n][at..at + 4] == all[at..at + ROW][0..4];
  }

  lemma CutEntry(flat: seq<Entry>, k: nat, n: nat, j: nat)
    requires k <= |flat| && AllPackable(flat[..k]) && n <= ROW * k && 1 <= j && ROW * j <= n
    ensures j <= k && EntryAt(RowsLeft(flat, k, n), j) == Some(flat[j - 1])
  {
    hide RowsBytes, RowBytes, RowOf;
    var all, at := RowsBytes(flat[..k]), ROW * (j - 1);
    RowAt(flat[..k], j - 1);
    RowRoundTrip(flat[j - 1]);
    assert all[..n][at..at + ROW] == all[at..at + ROW];
  }

  /**
   * A file with a whole header, cut after n bytes of its rows: by a number out of width in row k, which
   * ends it behind row k, or at any byte by a process that is killed while it writes.
   */
  ghost predicate CutAfter(flat: seq<Entry>, block: bytes, k: nat, n: nat, f: bytes) {
    && |flat| < TWO32 && |block| < TWO32 && Disjoint(flat) && k <= |flat| && AllPackable(flat[..k])
    && n <= ROW * k && n < ROW * |flat|
    && f == Header(flat, block) + RowsBytes(flat[..k])[..n]
  }

  /** A file that ends within its header or its rows. */
  ghost predicate Unfinished(f: bytes) {
    |f| < 12 || exists flat, block, k: nat, n: nat :: CutAfter(flat, block, k, n, f)
  }

  /** What a failed build leaves is unfinished. */
  lemma BrokenKinds(f: bytes)
    requires Broken(f)
    ensures Unfinished(f)
  {
    hide RowsBytes, Packable, AllPackable, Disjoint;
    var flat, block :| Disjoint(flat) && Partial(flat, block, f);
    if |flat| < TWO32 && |block| < TWO32 {
      var k: nat :| k < |flat| && AllPackable(flat[..k]) && f == Header(flat, block) + RowsBytes(flat[..k]);
      assert RowsBytes(flat[..k])[..ROW * k] == RowsBytes(flat[..k]);
      assert CutAfter(flat, block, k, ROW * k, f);
    }
  }

  /** So is every beginning of a table that stops short of its names. */
  lemma PrefixUnfinished(flat: seq<Entry>, block: bytes, n: nat)
    requires Packs(flat, block) && Disjoint(flat) && n < 12 + ROW * |flat|
    ensures n <= |Table(flat, block)| && Unfinished(Table(flat, block)[..n])
  {
    hide RowsBytes, Packable, Disjoint, Header;
    var rows := RowsBytes(flat);
    if n >= 12 {
      assert flat[..|flat|] == flat;
      assert Table(flat, block)[..n] == Header(flat, block) + rows[..n - 12];
      assert CutAfter(flat, block, |flat|, n - 12, Table(flat, block)[..n]);
    }
  }

  /** Without a whole header nothing changes. */
  lemma ShortRefused(f: bytes, s: State)
    requires |f| < 12
    ensures LoadInto(s, Some(f)) == s
  {
  }

  /** With one, the rows and names are gone before the load is refused. */
  lemma CutLoads(flat: seq<Entry>, block: bytes, k: nat, n: nat, f: bytes, s: State)
    requires CutAfter(flat, block, k, n, f)
    ensures LoadInto(s, Some(f)) == s.(rows := RowsLeft(flat, k, n), names := None)
  {
    hide RowsBytes, Header, AllPackable, ReadWord, Disjoint;
    assert f[..12] == Header(flat, block);
    HeaderReads(flat, block, f);
    assert f[12..] == RowsBytes(flat[..k])[..n];
  }

  /** An unfinished file never makes an index loaded, nor changes its count. */
  lemma BrokenRefused(f: bytes, s: State)
    requires Unfinished(f)
    ensures LoadInto(s, Some(f)).loaded == s.loaded && LoadInto(s, Some(f)).count == s.count
  {
    hide LoadInto, CutAfter, RowsLeft;
    if |f| < 12 {
      ShortRefused(f, s);
    } else {
      var flat, block, k: nat, n: nat :| CutAfter(flat, block, k, n, f);
      CutCounts(flat, block, k, n, f, s);
    }
  }

  lemma CutCounts(flat: seq<Entry>, block: bytes, k: nat, n: nat, f: bytes, s: State)
    requires CutAfter(flat, block, k, n, f)
    ensures LoadInto(s, Some(f)).loaded == s.loaded && LoadInto(s, Some(f)).count == s.count
  {
    hide LoadInto, RowsBytes, Header;
    CutLoads(flat, block, k, n, f, s);
  }

  // ---------------------------------------------------------------- lookups over rows that were cut

  /** The rows the search reads, from low on, as long as it keeps going right. */
  function RightPath(low: nat, high: nat): (r: seq<nat>)
    requires 1 <= low <= high + 1
    ensures forall i :: 0 <= i < |r| ==> low <= r[i] <= high
    decreases high + 1 - low
  {
    if low > high then [] else [(low + high) / 2] + RightPath((low + high) / 2 + 1, high)
  }

  /** All rows that can be read are there, or the search turns left at one that is. */
  ghost predicate Survives(p: seq<Entry>, x: u32, low: nat, high: nat)
    requires 1 <= low <= high + 1
  {
    high <= |p| || exists i :: 0 <= i < |RightPath(low, high)| && TurnsLeft(p, x, RightPath(low, high)[i])
  }

  predicate TurnsLeft(p: seq<Entry>, x: u32, row: nat) {
    1 <= row <= |p| && x < p[row - 1].start
  }

  /** Among the first n rows, row a is the last one at or below x. */
  ghost predicate LastOf(p: seq<Entry>, x: u32, n: nat, a: nat) {
    && a <= |p| && a <= n
    && (forall j :: 0 <= j < a ==> p[j].start <= x)
    && (forall j :: a <= j < |p| && j < n ==> x < p[j].start)
  }

  /** What one row tells about the rows on either side. */
  lemma RowSplits(p: seq<Entry>, x: u32, row: nat)
    requires Disjoint(p) && 1 <= row <= |p|
    ensures p[row - 1].start <= x ==> forall j :: 0 <= j < row ==> p[j].start <= x
    ensures x < p[row - 1].start ==> forall j :: row - 1 <= j < |p| ==> x < p[j].start
  {
    assert forall j :: 0 <= j < row - 1 ==> p[j].end < p[row - 1].start;
    assert forall j :: row <= j < |p| ==> p[row - 1].end < p[j].start;
  }

  /** One row's first address. */
  lemma ShowsStart(rows: Option<bytes>, p: seq<Entry>, q: nat, j: nat)
    requires Shows(rows, p, q) && j >= 1
    ensures StartIp(rows, j) == if j <= |p| then Some(p[j - 1].start) else None
  {
  }

  /** Within the rows that are there the search finds the last row at or below x. */
  lemma {:induction false} SearchInside(rows: Option<bytes>, p: seq<Entry>, q: nat, x: u32, n: nat, low: nat, high: nat)
    requires Shows(rows, p, q) && Disjoint(p) && 1 <= low <= high + 1 && high <= |p| && high <= n
    requires forall j :: 0 <= j < low - 1 ==> p[j].start <= x
    requires forall j :: high <= j < |p| && j < n ==> x < p[j].start
    ensures Search(rows, x, low, high).Some?
    ensures LastOf(p, x, n, Search(rows, x, low, high).value)
    decreases high + 1 - low
  {
    hide Shows, StartIp, EntryAt, Disjoint;
    if low <= high {
      var mid := (low + high) / 2;
      ShowsStart(rows, p, q, mid);
      RowSplits(p, x, mid);
      if p[mid - 1].start <= x {
        SearchInside(rows, p, q, x, n, mid + 1, high);
      } else {
        SearchInside(rows, p, q, x, n, low, mid - 1);
      }
    }
  }

  /** The search reads only rows that are there exactly when it survives, and then it finds the last one. */
  lemma {:induction false} SearchCut(rows: Option<bytes>, p: seq<Entry>, q: nat, x: u32, low: nat, high: nat)
    requires Shows(rows, p, q) && Disjoint(p) && 1 <= low <= high + 1
    requires low - 1 <= |p| && forall j :: 0 <= j < low - 1 ==> p[j].start <= x
    ensures Search(rows, x, low, high).Some? <==> Survives(p, x, low, high)
    ensures Survives(p, x, low, high) ==> LastOf(p, x, high, Search(rows, x, low, high).value)
    decreases high + 1 - low
  {
    hide Shows, StartIp, EntryAt, Disjoint;
    if low <= high {
      var mid := (low + high) / 2;
      var path := RightPath(low, high);
      ShowsStart(rows, p, q, mid);
      assert path[0] == mid;
      if mid <= |p| {
        RowSplits(p, x, mid);
        if p[mid - 1].start <= x {
          SearchCut(rows, p, q, x, mid + 1, high);
          PathTail(p, x, low, high);
        } else {
          assert TurnsLeft(p, x, path[0]);
          SearchInside(rows, p, q, x, high, low, mid - 1);
        }
      }
    }
  }

  lemma PathTail(p: seq<Entry>, x: u32, low: nat, high: nat)
    requires 1 <= low <= high && !TurnsLeft(p, x, (low + high) / 2)
    ensures Survives(p, x, low, high) <==> Survives(p, x, (low + high) / 2 + 1, high)
  {
    hide TurnsLeft;
    var path, rest := RightPath(low, high), RightPath((low + high) / 2 + 1, high);
    assert forall i :: 0 <= i < |rest| ==> rest[i] == path[i + 1];
    assert forall i :: 0 < i < |path| ==> path[i] == rest[i - 1];
  }

  ghost predicate CoveredBy(p: seq<Entry>, n: nat, x: u32) {
    exists j :: 0 <= j < |p| && j < n && Covers(p[j], x)
  }

  /** The row that is cut behind its first address is the last one at or below x. */
  ghost predicate AtCutRow(p: seq<Entry>, q: nat, n: nat, x: u32) {
    q < |p| && q < n && p[q].start <= x
  }

  /**
   * What every lookup answers after such a reload: never a network. It stays silent where the search
   * survives, does not end at a row that is cut, and no whole row read before covers the address; it is a
   * run-time error anywhere else.
   */
  lemma CutAnswers(flat: seq<Entry>, block: bytes, k: nat, n: nat, f: bytes, s: State, x: u32)
    requires CutAfter(flat, block, k, n, f) && s.loaded && s.count > 0
    ensures WholeRows(n) <= StartedRows(n) <= |flat|
    ensures var p, q := flat[..StartedRows(n)], WholeRows(n);
            LookupOf(LoadInto(s, Some(f)), x) ==
              if Survives(p, x, 1, s.count) && !AtCutRow(p, q, s.count, x) && !CoveredBy(p[..q], s.count, x)
              then Nobody else Fault
  {
    hide LoadInto, Search, Survives, RowsLeft, StartIp, EntryAt, Header, RowsBytes, Disjoint;
    CutLoads(flat, block, k, n, f, s);
    CutShows(flat, k, n);
    var p, q, rows := flat[..StartedRows(n)], WholeRows(n), RowsLeft(flat, k, n);
    FrontDisjoint(flat, StartedRows(n));
    SearchCut(rows, p, q, x, 1, s.count);
    if Survives(p, x, 1, s.count) {
      var a := Search(rows, x, 1, s.count).value;
      LastCovers(p, q, x, s.count, a);
    }
  }

  lemma FrontDisjoint(flat: seq<Entry>, k: nat)
    requires Disjoint(flat) && k <= |flat|
    ensures Disjoint(flat[..k])
  {
  }

  lemma LastCovers(p: seq<Entry>, q: nat, x: u32, n: nat, a: nat)
    requires Disjoint(p) && LastOf(p, x, n, a) && q <= |p| <= q + 1
    ensures AtCutRow(p, q, n, x) <==> a > q
    ensures a <= q ==> (CoveredBy(p[..q], n, x) <==> a > 0 && Covers(p[a - 1], x))
  {
    if 0 < a <= q {
      assert forall j :: 0 <= j < a - 1 ==> p[j].end < p[a - 1].start;
      assert p[..q][a - 1] == p[a - 1];
      assert Covers(p[a - 1], x) ==> CoveredBy(p[..q], n, x);
    }
  }

  /**
   * A working index that reloads an unfinished file goes on answering every address as longest-prefix
   * match does if and only if the file ends before its header does.
   */
  lemma ReloadExactly(rows: seq<Row>, s: State, f: bytes)
    requires Working(Sources(rows), s) && Unfinished(f)
    ensures (forall x: u32 :: IsLongestPrefixAnswer(Sources(rows), x, LookupOf(LoadInto(s, Some(f)), x))) <==> |f| < 12
  {
    hide LoadInto, Sources, Working, LookupOf, IsLongestPrefixAnswer, CutAfter, Survives, CoveredBy, AtCutRow;
    if |f| < 12 {
      ShortRefused(f, s);
      forall x: u32 ensures IsLongestPrefixAnswer(Sources(rows), x, LookupOf(LoadInto(s, Some(f)), x)) {
        WorkingAnswers(Sources(rows), s, x);
      }
    } else {
      var flat, block, k: nat, n: nat :| CutAfter(flat, block, k, n, f);
      var x: u32 := 10 * 0x100_0000;
      WorkingLoaded(Sources(rows), s);
      CutAnswers(flat, block, k, n, f, s, x);
      PrivateAnswered(rows, x, LookupOf(LoadInto(s, Some(f)), x));
    }
  }

  lemma WorkingLoaded(ss: seq<Source>, s: State)
    requires Working(ss, s)
    ensures s.loaded && s.count > 0
  {
    hide TableFor, Packs, RowsBytes;
  }

  /** The private blocks are in every table, so their addresses must be answered. */
  lemma PrivateAnswered(rows: seq<Row>, x: u32, r: Answer)
    requires x == 10 * 0x100_0000 && !r.Network?
    ensures !IsLongestPrefixAnswer(Sources(rows), x, r)
  {
    hide Sources;
    SourcesStart(rows);
    var ss := Sources(rows);
    assert ss[1] == ss[..|PRIVATE|][1] == PRIVATE[1];
    assert PRIVATE[1].ip == x && x % TWO32 == x;
    assert Matches(ss[1], x);
  }

  // ---------------------------------------------------------------- files cut among their names

  /** The first m bytes of the names, as they are read: nothing at all when there are none. */
  function NamesLeft(block: bytes, m: nat): Option<bytes>
    requires m <= |block|
  {
    if m == 0 then None else Some(block[..m])
  }

  /** A table with all its rows is loaded, whatever is left of its names. */
  lemma NamesCutLoads(flat: seq<Entry>, block: bytes, m: nat, s: State)
    requires Packs(flat, block) && flat != [] && m <= |block|
    ensures 12 + ROW * |flat| + m <= |Table(flat, block)|
    ensures LoadInto(s, Some(Table(flat, block)[..12 + ROW * |flat| + m]))
         == State(true, Some(RowsBytes(flat)), NamesLeft(block, m), |flat|)
  {
    hide RowsBytes, Header, AllPackable, Read, ReadWord, FromBe32;
    var head, rows := Header(flat, block), RowsBytes(flat);
    var f := Table(flat, block)[..12 + ROW * |flat| + m];
    assert f == head + rows + block[..m];
    CutPieces(head, rows, block[..m], |block|);
    assert f[..12] == head;
    HeaderReads(flat, block, f);
  }

  lemma CutPieces(head: bytes, rows: bytes, names: bytes, size: nat)
    requires |head| == 12 && rows != [] && |names| <= size
    ensures (head + rows + names)[..12] == head
    ensures Read(head + rows + names, 12, |rows|) == Some(rows)
    ensures Read(head + rows + names, 12 + |rows|, size) == if names == [] then None else Some(names)
  {
    var f := head + rows + names;
    assert f[12..12 + |rows|] == rows;
    assert f[12 + |rows|..] == names;
    assert f[12 + |rows|..12 + |rows| + |names|] == names;
  }

  /** A name of which the end is cut off reads as unknown; any other reads as before. */
  lemma NameCut(block: bytes, m: nat, off: nat, name: bytes)
    requires m <= |block| && StoredAt(block, off, name)
    ensures NameAt(block[..m], off) ==
              if off + |UpToNul(name)| < m then UpToNul(name) else Ascii("Unknown")
  {
    hide Ascii;
    var n := |UpToNul(name)|;
    StoredZero(block, off, name);
    if off + n < m {
      var tail := block[..m][off..];
      assert tail[n] == 0;
      var rest := tail[n + 1..];
      assert tail[..n] == block[off..off + |name|][..n] == UpToNul(name);
      assert tail == UpToNul(name) + [0] + rest;
      UpToNulIgnoresRest(UpToNul(name), rest);
      NoZeroStays(UpToNul(name));
    } else if off < m {
      var tail := block[..m][off..];
      forall i | 0 <= i < |tail| ensures tail[i] != 0 {
        assert tail[i] == block[off..off + |name|][i] == name[i] == UpToNul(name)[i];
      }
    }
  }

  /** The zero byte that ends what is read of a stored name. */
  lemma StoredZero(block: bytes, off: nat, name: bytes)
    requires StoredAt(block, off, name)
    ensures off + |UpToNul(name)| < |block| && block[off + |UpToNul(name)|] == 0
  {
    var n := |UpToNul(name)|;
    if n < |name| {
      assert block[off..off + |name|][n] == name[n];
    }
  }

  lemma {:induction false} NoZeroStays(name: bytes)
    requires 0 !in name
    ensures UpToNul(name) == name
  {
    if name != [] {
      NoZeroStays(name[1..]);
      assert [name[0]] + name[1..] == name;
    }
  }

  /**
   * What every lookup answers then: as before where no interval covers the address, and with what is left
   * of the name where one does.
   */
  lemma NamesCutAnswers(flat: seq<Entry>, block: bytes, m: nat, x: u32, s: State)
    requires Packs(flat, block) && flat != [] && Disjoint(flat) && m <= |block|
    requires s == State(true, Some(RowsBytes(flat)), NamesLeft(block, m), |flat|)
    ensures forall k :: 0 <= k < |flat| && Covers(flat[k], x) ==>
              LookupOf(s, x) ==
                if m == 0 then Fault else Network(flat[k].tag.asn, NameAt(block[..m], flat[k].tag.off))
    ensures (forall k :: 0 <= k < |flat| ==> !Covers(flat[k], x)) ==> LookupOf(s, x) == Nobody
  {
    hide Search, StartIp, EntryAt, RowsBytes, NameAt, Survives;
    WholeShows(flat);
    SearchInside(s.rows, flat, |flat|, x, |flat|, 1, |flat|);
    var a := Search(s.rows, x, 1, |flat|).value;
    forall k | 0 <= k < |flat| && Covers(flat[k], x) ensures a == k + 1 {
      OnlyLast(flat, x, k, a);
    }
    if a > 0 {
      assert EntryAt(s.rows, a) == Some(flat[a - 1]);
      assert Covers(flat[a - 1], x) <==> flat[a - 1].start <= x <= flat[a - 1].end;
    }
  }

  lemma OnlyLast(flat: seq<Entry>, x: u32, k: nat, a: nat)
    requires Disjoint(flat) && k < |flat| && Covers(flat[k], x) && LastOf(flat, x, |flat|, a)
    ensures a == k + 1
  {
    assert k < a;
    assert forall j :: 0 <= j < a - 1 ==> flat[j].end < flat[a - 1].start;
  }

  lemma WholeShows(flat: seq<Entry>)
    requires AllPackable(flat) && flat != []
    ensures Shows(Some(RowsBytes(flat)), flat, |flat|)
  {
    hide RowsBytes, StartIp, EntryAt, AllPackable;
    var n := ROW * |flat|;
    assert flat[..|flat|] == flat;
    CutShows(flat, |flat|, n);
    assert RowsBytes(flat)[..n] == RowsBytes(flat);
    assert WholeRows(n) == |flat| && StartedRows(n) == |flat|;
  }

  /**
   * An index loaded from a table that is cut among its names answers every address as longest-prefix
   * match does if and only if something of the names is left and every interval's name still reads as it did.
   */
  lemma NamesCutExactly(rows: seq<Row>, es: seq<Entry>, flat: seq<Entry>, block: bytes, m: nat, before: State)
    requires TableFor(Sources(rows), es, flat, block) && Packs(flat, block) && m <= |block|
    ensures flat != [] && 12 + ROW * |flat| + m <= |Table(flat, block)|
    ensures var s := LoadInto(before, Some(Table(flat, block)[..12 + ROW * |flat| + m]));
            (forall x: u32 :: IsLongestPrefixAnswer(Sources(rows), x, LookupOf(s, x))) <==>
              m > 0 && forall k :: 0 <= k < |flat| ==>
                         NameAt(block[..m], flat[k].tag.off) == NameAt(block, flat[k].tag.off)
  {
    hide TableFor, AllPackable, Table, LoadInto, RowsBytes, Sources, IsLongestPrefixAnswer, LookupOf, NameAt, Disjoint;
    var ss := Sources(rows);
    SourcesStart(rows);
    BuiltNotEmpty(ss, es, flat, block);
    TableDisjoint(ss, es, flat, block);
    NamesCutLoads(flat, block, m, before);
    var s := State(true, Some(RowsBytes(flat)), NamesLeft(block, m), |flat|);
    forall x: u32 ensures CutRight(ss, flat, block, m, s, x) {
      NamesCutAt(ss, es, flat, block, m, s, x);
    }
    forall k | 0 <= k < |flat| ensures StartsInRange(flat, k) {
      IntervalStart(flat, k);
    }
    CutRightEverywhere(ss, flat, block, m, s);
  }

  /** At this address the answer is right exactly when the covering interval's name is. */
  ghost predicate CutRight(ss: seq<Source>, flat: seq<Entry>, block: bytes, m: nat, s: State, x: u32)
    requires m <= |block| && forall j :: 0 <= j < |ss| ==> ss[j].mask <= 32
  {
    IsLongestPrefixAnswer(ss, x, LookupOf(s, x)) <==>
      forall k :: 0 <= k < |flat| && Covers(flat[k], x) ==>
        m > 0 && NameAt(block[..m], flat[k].tag.off) == NameAt(block, flat[k].tag.off)
  }

  ghost predicate StartsInRange(flat: seq<Entry>, k: nat)
    requires k < |flat|
  {
    0 <= flat[k].start < TWO32 && Covers(flat[k], flat[k].start)
  }

  lemma IntervalStart(flat: seq<Entry>, k: nat)
    requires Disjoint(flat) && k < |flat|
    ensures StartsInRange(flat, k)
  {
  }

  lemma CutRightEverywhere(ss: seq<Source>, flat: seq<Entry>, block: bytes, m: nat, s: State)
    requires m <= |block| && flat != [] && forall j :: 0 <= j < |ss| ==> ss[j].mask <= 32
    requires forall x: u32 :: CutRight(ss, flat, block, m, s, x)
    requires forall k :: 0 <= k < |flat| ==> StartsInRange(flat, k)
    ensures (forall x: u32 :: IsLongestPrefixAnswer(ss, x, LookupOf(s, x))) <==>
              m > 0 && forall k :: 0 <= k < |flat| ==>
                         NameAt(block[..m], flat[k].tag.off) == NameAt(block, flat[k].tag.off)
  {
    hide IsLongestPrefixAnswer, LookupOf, NameAt;
    if forall x: u32 :: IsLongestPrefixAnswer(ss, x, LookupOf(s, x)) {
      forall k | 0 <= k < |flat|
        ensures m > 0 && NameAt(block[..m], flat[k].tag.off) == NameAt(block, flat[k].tag.off)
      {
        assert StartsInRange(flat, k);
        assert CutRight(ss, flat, block, m, s, flat[k].start);
      }
      assert StartsInRange(flat, 0);
    } else {
      var x: u32 :| !IsLongestPrefixAnswer(ss, x, LookupOf(s, x));
      assert CutRight(ss, flat, block, m, s, x);
    }
  }

  lemma NamesCutAt(ss: seq<Source>, es: seq<Entry>, flat: seq<Entry>, block: bytes, m: nat, s: State, x: u32)
    requires TableFor(ss, es, flat, block) && Packs(flat, block) && flat != [] && Disjoint(flat) && m <= |block|
    requires forall j :: 0 <= j < |ss| ==> ss[j].mask <= 32
    requires s == State(true, Some(RowsBytes(flat)), NamesLeft(block, m), |flat|)
    ensures CutRight(ss, flat, block, m, s, x)
  {
    hide TableFor, Packs, RowsBytes, LookupOf, NameAt, Disjoint, Matches, Covers, LongestMatch, UpToNul;
    NamesCutAnswers(flat, block, m, x, s);
    if exists k :: 0 <= k < |flat| && Covers(flat[k], x) {
      forall k | 0 <= k < |flat| && Covers(flat[k], x)
        ensures IsLongestPrefixAnswer(ss, x, LookupOf(s, x)) <==>
                  m > 0 && NameAt(block[..m], flat[k].tag.off) == NameAt(block, flat[k].tag.off)
      {
        IntervalNamesLongest(ss, es, flat, block, x, k);
        if m > 0 {
          OneName(ss, x, flat[k].tag.asn, NameAt(block[..m], flat[k].tag.off), NameAt(block, flat[k].tag.off));
        }
      }
    } else {
      forall i: nat | i < |ss| ensures !Matches(ss[i], x) {
        if Matches(ss[i], x) {
          MatchedIsCovered(ss, es, flat, block, x, i);
        }
      }
    }
  }

  /** Longest-prefix match has one name for an address. */
  lemma OneName(ss: seq<Source>, x: u32, asn: int, a: bytes, b: bytes)
    requires forall j :: 0 <= j < |ss| ==> ss[j].mask <= 32
    requires NamesLongest(ss, x, asn, b)
    ensures NamesLongest(ss, x, asn, a) <==> a == b
  {
    hide Matches, UpToNul;
    if NamesLongest(ss, x, asn, a) {
      var i: nat :| LongestMatch(ss, x, i) && asn == ss[i].asn && a == UpToNul(ss[i].name);
      var j: nat :| LongestMatch(ss, x, j) && asn == ss[j].asn && b == UpToNul(ss[j].name);
      assert i == j;
    }
  }
}
