/** The bounded aggregator of observed queries. */
module Dnstap {
  const OTHER: string := "_other_"
  const DEFAULT_CAPACITY: nat := 50000

  /** Query name and type, and the day they were seen. */
  datatype Key = Key(day: string, qname: string, qtype: string)

  datatype Item = Item(key: Key, count: nat)

  /** A name with all its queries. */
  datatype Total = Total(name: string, count: nat)

  type Counts = map<Key, nat>

  predicate IsOverflow(k: Key) {
    k.qname == OTHER && k.qtype == OTHER
  }

  /** The key a query counts under: its own, or once the table is full and does not have it the day's overflow key. */
  function KeyFor(cap: nat, m: Counts, k: Key): Key {
    if k !in m && cap > 0 && |m| >= cap then Key(k.day, OTHER, OTHER) else k
  }

  function CountOf(m: Counts, k: Key): nat {
    if k in m then m[k] else 0
  }

  function Added(cap: nat, m: Counts, k: Key): Counts {
    var at := KeyFor(cap, m, k);
    m[at := CountOf(m, at) + 1]
  }

  // ---------------------------------------------------------------- sums

  ghost function Sum(m: Counts): nat {
    if |m| == 0 then 0
    else
      var k :| k in m;
      m[k] + Sum(m - {k})
  }

  lemma SumPick(m: Counts) returns (j: Key)
    requires |m| > 0
    ensures j in m && Sum(m) == m[j] + Sum(m - {j})
  {
    j :| j in m && Sum(m) == m[j] + Sum(m - {j});
  }

  /** Any key may be taken out of a sum. */
  lemma {:induction false} SumOne(m: Counts, k: Key)
    requires k in m
    ensures Sum(m) == m[k] + Sum(m - {k})
    decreases |m|
  {
    hide Sum;
    var j := SumPick(m);
    if j != k {
      var n, o := m - {j}, m - {k};
      assert |n.Keys| < |m.Keys| && n.Keys == m.Keys - {j};
      assert |o.Keys| < |m.Keys| && o.Keys == m.Keys - {k};
      SumOne(n, k);
      SumOne(o, j);
      assert n - {k} == o - {j};
    }
  }

  lemma SumSet(m: Counts, k: Key, v: nat)
    ensures Sum(m[k := v]) + CountOf(m, k) == Sum(m) + v
  {
    var m2 := m[k := v];
    SumOne(m2, k);
    assert m2 - {k} == m - {k};
    if k in m {
      SumOne(m, k);
    } else {
      assert m - {k} == m;
    }
  }

  ghost function Select(m: Counts, p: Key -> bool): Counts {
    map k | k in m && p(k) :: m[k]
  }

  lemma SelectAdded(cap: nat, m: Counts, k: Key, p: Key -> bool)
    ensures Sum(Select(Added(cap, m, k), p)) == Sum(Select(m, p)) + (if p(KeyFor(cap, m, k)) then 1 else 0)
  {
    hide Sum;
    var at := KeyFor(cap, m, k);
    var s := Select(m, p);
    if p(at) {
      assert Select(Added(cap, m, k), p) == s[at := CountOf(m, at) + 1];
      SumSet(s, at, CountOf(m, at) + 1);
    } else {
      assert Select(Added(cap, m, k), p) == s;
    }
  }

  function NameTotal(m: Counts, name: string): Counts {
    map k | k in m && k.qname == name :: m[k]
  }

  function Names(m: Counts): set<string> {
    set k | k in m :: k.qname
  }

  function SumItems(items: seq<Item>): nat {
    if items == [] then 0 else SumItems(items[..|items| - 1]) + items[|items| - 1].count
  }

  // ---------------------------------------------------------------- runs

  datatype Event = Add(key: Key) | Take

  /** What is held, and how many observations were drained, after some events. */
  datatype State = State(held: Counts, drained: nat)

  ghost function Run(cap: nat, events: seq<Event>): State {
    if events == [] then State(map[], 0)
    else
      var s := Run(cap, events[..|events| - 1]);
      match events[|events| - 1]
      case Add(k) => State(Added(cap, s.held, k), s.drained)
      case Take => State(map[], s.drained + Sum(s.held))
  }

  function Adds(events: seq<Event>): nat {
    if events == [] then 0 else Adds(events[..|events| - 1]) + (if events[|events| - 1].Add? then 1 else 0)
  }

  lemma AddedSum(cap: nat, m: Counts, k: Key)
    ensures Sum(Added(cap, m, k)) == Sum(m) + 1
  {
    hide Sum;
    SumSet(m, KeyFor(cap, m, k), CountOf(m, KeyFor(cap, m, k)) + 1);
  }

  /** No observation is lost: those drained and those held are all there were. */
  lemma {:induction false} Conservation(cap: nat, events: seq<Event>)
    ensures Run(cap, events).drained + Sum(Run(cap, events).held) == Adds(events)
  {
    if events != [] {
      var front := events[..|events| - 1];
      Conservation(cap, front);
      if events[|events| - 1].Add? {
        AddedSum(cap, Run(cap, front).held, events[|events| - 1].key);
      }
    }
  }

  /** Keys of real queries, which do not count the overflow keys. */
  function Ordinary(m: Counts): set<Key> {
    set k | k in m && !IsOverflow(k)
  }

  lemma {:induction false} Bounded(cap: nat, events: seq<Event>)
    requires cap > 0
    ensures |Ordinary(Run(cap, events).held)| <= cap
  {
    if events != [] {
      var front, e := events[..|events| - 1], events[|events| - 1];
      Bounded(cap, front);
      if e.Add? {
        AddedBounded(cap, Run(cap, front).held, e.key);
      }
    }
  }

  lemma AddedBounded(cap: nat, m: Counts, k: Key)
    requires cap > 0 && |Ordinary(m)| <= cap
    ensures |Ordinary(Added(cap, m, k))| <= cap
  {
    var at := KeyFor(cap, m, k);
    if IsOverflow(at) || at in m {
      assert Ordinary(Added(cap, m, k)) == Ordinary(m);
    } else {
      assert Ordinary(Added(cap, m, k)) == Ordinary(m) + {at};
      assert Ordinary(m) <= m.Keys;
      SubsetSize(Ordinary(m), m.Keys);
      assert |m.Keys| == |m|;
    }
  }

  lemma {:induction false} SubsetSize<T>(a: set<T>, b: set<T>)
    requires a <= b
    ensures |a| <= |b|
  {
    if a != {} {
      var x :| x in a;
      SubsetSize(a - {x}, b - {x});
    }
  }

  /** One overflow key a day: two of the same day are the same key. */
  lemma OneOverflow(m: Counts, j: Key, k: Key)
    requires j in m && k in m && IsOverflow(j) && IsOverflow(k) && j.day == k.day
    ensures j == k
  {
  }

  /** How often a key was added since the last drain. */
  function Observed(events: seq<Event>, k: Key): nat {
    if events == [] || events[|events| - 1].Take? then 0
    else Observed(events[..|events| - 1], k) + (if events[|events| - 1].key == k then 1 else 0)
  }

  /**
   * What a table says of one real query: its exact count, or, if it was seen and is missing, that the
   * table is full.
   */
  ghost predicate Exact(cap: nat, m: Counts, events: seq<Event>, k: Key) {
    if k in m then m[k] == Observed(events, k) else Observed(events, k) > 0 ==> |m| >= cap
  }

  /** A key that has an entry has its exact count; one that does not was never seen, or came when the table was full. */
  lemma {:induction false} RunExact(cap: nat, events: seq<Event>, k: Key)
    requires cap > 0 && !IsOverflow(k)
    ensures Exact(cap, Run(cap, events).held, events, k)
  {
    if events != [] {
      var front, e := events[..|events| - 1], events[|events| - 1];
      RunExact(cap, front, k);
      if e.Add? {
        AddedGrows(cap, Run(cap, front).held, e.key);
      }
    }
  }

  lemma AddedGrows(cap: nat, m: Counts, k: Key)
    ensures |m| <= |Added(cap, m, k)|
  {
    var m2 := Added(cap, m, k);
    SubsetSize(m.Keys, m2.Keys);
    assert |m.Keys| == |m| && |m2.Keys| == |m2|;
  }

  /** Observations of one day since the last drain. */
  function ObservedOn(events: seq<Event>, day: string): nat {
    if events == [] || events[|events| - 1].Take? then 0
    else ObservedOn(events[..|events| - 1], day) + (if events[|events| - 1].key.day == day then 1 else 0)
  }

  /** Overflow never moves an observation to another day: each day's counts add up to what it saw. */
  lemma {:induction false} DayConservation(cap: nat, events: seq<Event>, day: string)
    ensures Sum(Select(Run(cap, events).held, (k: Key) => k.day == day)) == ObservedOn(events, day)
  {
    hide Sum;
    var p := (k: Key) => k.day == day;
    if events == [] || events[|events| - 1].Take? {
      assert Select(map[], p) == map[];
      EmptySum();
    } else {
      var front := events[..|events| - 1];
      DayConservation(cap, front, day);
      SelectAdded(cap, Run(cap, front).held, events[|events| - 1].key, p);
    }
  }

  lemma EmptySum()
    ensures Sum(map[]) == 0
  {
  }

  // ---------------------------------------------------------------- the aggregator

  /** The items are the entries of the table, each once. */
  ghost predicate ItemsOf(m: Counts, items: seq<Item>) {
    && (forall i :: 0 <= i < |items| ==> items[i].key in m && m[items[i].key] == items[i].count)
    && (forall i, j :: 0 <= i < j < |items| ==> items[i].key != items[j].key)
    && |items| == |m|
  }

  /** The totals are the names of the table, each once, with all their queries. */
  ghost predicate TotalOf(m: Counts, t: Total) {
    t.name in Names(m) && t.count == Sum(NameTotal(m, t.name))
  }

  /** Names with their totals, most frequent first, each name once. */
  ghost predicate Ranked(m: Counts, ts: seq<Total>) {
    && (forall i :: 0 <= i < |ts| ==> TotalOf(m, ts[i]))
    && (forall i, j :: 0 <= i < j < |ts| ==> ts[i].name != ts[j].name && ts[i].count >= ts[j].count)
  }

  /** No name left out is more frequent than one listed. */
  ghost predicate Dominates(m: Counts, ts: seq<Total>) {
    forall name, i :: name in Names(m) && (forall j :: 0 <= j < |ts| ==> ts[j].name != name) && 0 <= i < |ts| ==>
      Sum(NameTotal(m, name)) <= ts[i].count
  }

  class DnstapAggregator {
    const cap: nat
    var m: Counts

    constructor (capacity: int)
      ensures m == map[] && cap == if capacity <= 0 then 50000 else capacity
    {
      cap := if capacity <= 0 then DEFAULT_CAPACITY else capacity;
      m := map[];
    }

    method Add(day: string, qname: string, qtype: string)
      modifies this
      ensures m == Added(cap, old(m), Key(day, qname, qtype))
    {
      var k := Key(day, qname, qtype);
      if k !in m && cap > 0 && |m| >= cap {
        k := k.(qname := OTHER, qtype := OTHER);
      }
      m := m[k := (if k in m then m[k] else 0) + 1];
    }

    method Take() returns (items: seq<Item>)
      modifies this
      ensures m == map[] && ItemsOf(old(m), items) && SumItems(items) == Sum(old(m))
    {
      hide Sum;
      items := [];
      var todo := m.Keys;
      ghost var rest := m;
      EmptySum();
      while todo != {}
        invariant todo <= m.Keys && rest == map k | k in todo :: m[k]
        invariant m == old(m) && |items| + |todo| == |m|
        invariant forall i :: 0 <= i < |items| ==>
                    items[i].key in m && items[i].key !in todo && m[items[i].key] == items[i].count
        invariant forall i, j :: 0 <= i < j < |items| ==> items[i].key != items[j].key
        invariant SumItems(items) + Sum(rest) == Sum(m)
        decreases |todo|
      {
        var k :| k in todo;
        SumOne(rest, k);
        items := items + [Item(k, m[k])];
        todo := todo - {k};
        rest := rest - {k};
      }
      m := map[];
    }

    method TopBlocked(n: int) returns (res: seq<Total>)
      ensures Ranked(m, res) && Dominates(m, res)
      ensures |res| == if 0 < n < |Names(m)| then n else |Names(m)|
    {
      hide Sum, Ranked, Dominates, NamesDiffer, Descending, AreTotals, Listed;
      var all := AllTotals(m);
      var sorted := SortDescending(all);
      SortedTotals(m, all, sorted);
      PrefixDominates(m, sorted, if 0 < n < |sorted| then n else |sorted|);
      assert sorted[..|sorted|] == sorted;
      return if 0 < n < |sorted| then sorted[..n] else sorted;
    }
  }

  /** The first k of all ranked names are ranked, and no other name is more frequent. */
  lemma PrefixDominates(m: Counts, sorted: seq<Total>, k: nat)
    requires Ranked(m, sorted) && k <= |sorted|
    requires Listed(m, sorted)
    ensures Ranked(m, sorted[..k]) && Dominates(m, sorted[..k])
  {
    hide Sum;
    var ts := sorted[..k];
    assert forall i :: 0 <= i < k ==> ts[i] == sorted[i];
    forall name, i | name in Names(m) && (forall j :: 0 <= j < |ts| ==> ts[j].name != name) && 0 <= i < |ts|
      ensures Sum(NameTotal(m, name)) <= ts[i].count
    {
      var at :| 0 <= at < |sorted| && sorted[at].name == name;
      assert TotalOf(m, sorted[at]);
      assert forall j :: 0 <= j < k ==> sorted[j] == ts[j];
    }
  }

  /** Every name of the table has a place in the list. */
  ghost predicate Listed(m: Counts, ts: seq<Total>) {
    forall name :: name in Names(m) ==> exists i :: 0 <= i < |ts| && ts[i].name == name
  }

  ghost predicate AreTotals(m: Counts, ts: seq<Total>) {
    forall i :: 0 <= i < |ts| ==> TotalOf(m, ts[i])
  }

  lemma SortedTotals(m: Counts, all: seq<Total>, sorted: seq<Total>)
    requires AreTotals(m, all) && Listed(m, all)
    requires forall x :: x in sorted <==> x in all
    requires NamesDiffer(sorted) && Descending(sorted)
    ensures Ranked(m, sorted) && Listed(m, sorted)
  {
    hide Sum, TotalOf;
    forall i | 0 <= i < |sorted| ensures TotalOf(m, sorted[i]) {
      assert sorted[i] in all;
    }
    forall name | name in Names(m) ensures exists i :: 0 <= i < |sorted| && sorted[i].name == name {
      var i :| 0 <= i < |all| && all[i].name == name;
      assert all[i] in sorted;
    }
  }

  /** All names with their totals, in no particular order. */
  method AllTotals(m: Counts) returns (all: seq<Total>)
    ensures AreTotals(m, all) && NamesDiffer(all) && Listed(m, all) && |all| == |Names(m)|
  {
    hide Sum, NameTotal;
    var totals := Totals(m);
    all := [];
    var todo := totals.Keys;
    while todo != {}
      invariant todo <= totals.Keys && |all| + |todo| == |Names(m)|
      invariant AreTotals(m, all) && NamesDiffer(all)
      invariant forall i :: 0 <= i < |all| ==> all[i].name !in todo
      invariant forall name :: name in Names(m) && name !in todo ==> exists i :: 0 <= i < |all| && all[i].name == name
      decreases |todo|
    {
      var name :| name in todo;
      ghost var before := all;
      all := all + [Total(name, totals[name])];
      todo := todo - {name};
      assert all[|before|].name == name;
      assert forall i :: 0 <= i < |before| ==> all[i] == before[i];
    }
  }

  ghost predicate NamesDiffer(ts: seq<Total>) {
    forall i, j :: 0 <= i < j < |ts| ==> ts[i].name != ts[j].name
  }

  ghost predicate Descending(ts: seq<Total>) {
    forall i, j :: 0 <= i < j < |ts| ==> ts[i].count >= ts[j].count
  }

  method InsertTotal(ts: seq<Total>, t: Total) returns (r: seq<Total>)
    requires NamesDiffer(ts) && Descending(ts) && forall i :: 0 <= i < |ts| ==> ts[i].name != t.name
    ensures NamesDiffer(r) && Descending(r) && |r| == |ts| + 1
    ensures forall x :: x in r <==> x == t || x in ts
  {
    var k := |ts|;
    while k > 0 && ts[k - 1].count < t.count
      invariant 0 <= k <= |ts|
      invariant forall j :: k <= j < |ts| ==> ts[j].count < t.count
    {
      k := k - 1;
    }
    r := ts[..k] + [t] + ts[k..];
    InsertedOrder(ts, t, k, r);
    InsertedElements(ts, t, k);
  }

  lemma InsertedOrder(ts: seq<Total>, t: Total, k: nat, r: seq<Total>)
    requires NamesDiffer(ts) && Descending(ts) && k <= |ts| && r == ts[..k] + [t] + ts[k..]
    requires forall i :: 0 <= i < |ts| ==> ts[i].name != t.name
    requires forall j :: k <= j < |ts| ==> ts[j].count < t.count
    requires k > 0 ==> ts[k - 1].count >= t.count
    ensures NamesDiffer(r) && Descending(r)
  {
    assert forall j :: 0 <= j < k ==> r[j] == ts[j];
    assert r[k] == t;
    assert forall j :: k < j < |r| ==> r[j] == ts[j - 1];
    forall a, b | 0 <= a < b < |r| ensures r[a].name != r[b].name && r[a].count >= r[b].count {
      var c, d := if a < k then a else a - 1, if b < k then b else b - 1;
      if a != k && b != k {
        assert r[a] == ts[c] && r[b] == ts[d];
      } else if b == k {
        assert a == k - 1 || ts[a].count >= ts[k - 1].count;
      }
    }
  }

  lemma InsertedElements(ts: seq<Total>, t: Total, k: nat)
    requires k <= |ts|
    ensures forall x :: x in ts[..k] + [t] + ts[k..] <==> x == t || x in ts
  {
    assert ts == ts[..k] + ts[k..];
  }

  /** The totals sorted by count, most frequent first. */
  method SortDescending(all: seq<Total>) returns (r: seq<Total>)
    requires NamesDiffer(all)
    ensures NamesDiffer(r) && Descending(r) && |r| == |all|
    ensures forall x :: x in r <==> x in all
  {
    r := [];
    for i := 0 to |all|
      invariant NamesDiffer(r) && Descending(r) && |r| == i
      invariant forall x :: x in r <==> x in all[..i]
    {
      forall j | 0 <= j < i ensures r[j].name != all[i].name {
        assert r[j] in all[..i];
      }
      r := InsertTotal(r, all[i]);
      assert all[..i + 1] == all[..i] + [all[i]];
    }
    assert all[..|all|] == all;
  }

  ghost predicate TotalsOf(seen: Counts, totals: map<string, nat>) {
    totals.Keys == Names(seen) && forall name :: name in totals ==> totals[name] == Sum(NameTotal(seen, name))
  }

  method Totals(m: Counts) returns (totals: map<string, nat>)
    ensures TotalsOf(m, totals)
  {
    hide TotalsOf;
    totals := map[];
    var todo := m.Keys;
    ghost var seen: Counts := map[];
    TotalsNone();
    while todo != {}
      invariant todo <= m.Keys && seen.Keys == m.Keys - todo && forall k :: k in seen ==> seen[k] == m[k]
      invariant TotalsOf(seen, totals)
      decreases |todo|
    {
      var k :| k in todo;
      TotalsStep(seen, k, m[k], totals);
      totals := totals[k.qname := (if k.qname in totals then totals[k.qname] else 0) + m[k]];
      todo := todo - {k};
      seen := seen[k := m[k]];
    }
    assert seen == m;
  }

  lemma TotalsNone()
    ensures TotalsOf(map[], map[])
  {
  }

  lemma TotalsStep(seen: Counts, k: Key, v: nat, totals: map<string, nat>)
    requires k !in seen && TotalsOf(seen, totals)
    ensures TotalsOf(seen[k := v], totals[k.qname := (if k.qname in totals then totals[k.qname] else 0) + v])
  {
    hide Sum, NameTotal;
    NamesStep(seen, k, v);
  }

  lemma NamesStep(seen: Counts, k: Key, v: nat)
    requires k !in seen
    ensures Names(seen[k := v]) == Names(seen) + {k.qname}
    ensures forall name ::
              Sum(NameTotal(seen[k := v], name)) == Sum(NameTotal(seen, name)) + (if name == k.qname then v else 0)
    ensures k.qname !in Names(seen) ==> Sum(NameTotal(seen, k.qname)) == 0
  {
    hide Sum;
    EmptySum();
    forall name: string
      ensures Sum(NameTotal(seen[k := v], name)) == Sum(NameTotal(seen, name)) + (if name == k.qname then v else 0)
    {
      if name == k.qname {
        assert NameTotal(seen[k := v], name) == NameTotal(seen, name)[k := v];
        SumSet(NameTotal(seen, name), k, v);
      } else {
        assert NameTotal(seen[k := v], name) == NameTotal(seen, name);
      }
    }
    if k.qname !in Names(seen) {
      assert NameTotal(seen, k.qname) == map[];
    }
    assert k in seen[k := v];
  }

  /** What one observation adds, in the terms of the table: to its own entry, or to the day's overflow entry. */
  lemma AddedExactly(cap: nat, m: Counts, k: Key)
    ensures var other := Key(k.day, "_other_", "_other_");
            var full := cap > 0 && |m| >= cap;
            && (k in m ==> Added(cap, m, k) == m[k := m[k] + 1])
            && (k !in m && !full ==> Added(cap, m, k) == m[k := 1])
            && (k !in m && full ==> Added(cap, m, k) == m[other := (if other in m then m[other] else 0) + 1])
    ensures forall j :: IsOverflow(j) <==> j.qname == "_other_" && j.qtype == "_other_"
  {
  }
}
