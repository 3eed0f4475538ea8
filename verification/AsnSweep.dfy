/** Flattening overlapping CIDR ranges by a sweep line; the reference is longest-prefix match. */
module AsnSweep {
  import opened Basics
  import opened Bytes

  function Pow2(k: nat): (r: nat)
    ensures r >= 1
  {
    if k == 0 then 1 else 2 * Pow2(k - 1)
  }

  /** What an address is told about its network. */
  datatype Tag = Tag(mask: int, asn: int, off: nat)

  /** A range of addresses with its tag. */
  datatype Entry = Entry(start: int, end: int, tag: Tag)

  function Times(q: int, m: nat): int {
    q * m
  }

  /** Number of addresses in a block; a negative prefix length behaves like the empty prefix. */
  function BlockSize(mask: int): nat
    requires mask <= 32
  {
    if mask < 0 then Pow2(32) else Pow2(32 - mask)
  }

  ghost predicate MultipleOf(a: int, m: nat) {
    exists q: int :: a == Times(q, m)
  }

  /** A range as a CIDR block gives it: a power of two long and starting at a multiple of its length. */
  ghost predicate Aligned(e: Entry) {
    && e.tag.mask <= 32
    && MultipleOf(e.start, BlockSize(e.tag.mask))
    && e.end == e.start + BlockSize(e.tag.mask) - 1
    && 0 <= e.start <= e.end < TWO32
  }

  ghost predicate AllAligned(es: seq<Entry>) {
    forall i :: 0 <= i < |es| ==> Aligned(es[i])
  }

  predicate Covers(e: Entry, x: int) {
    e.start <= x <= e.end
  }

  /** Longest-prefix match: entry i covers x, none covering is more specific, ties go to the earliest. */
  ghost predicate IsBest(es: seq<Entry>, x: int, i: nat) {
    && i < |es| && Covers(es[i], x)
    && forall j :: 0 <= j < |es| && Covers(es[j], x) ==>
        es[j].tag.mask < es[i].tag.mask || (es[j].tag.mask == es[i].tag.mask && i <= j)
  }

  /** First and last address of a CIDR block; a prefix longer than 32 bits raises. */
  function CidrToRange(ip: int, mask: int): (r: Option<(int, int)>) {
    if mask > 32 then None
    else
      var low := ip % TWO32;
      var start := low - low % BlockSize(mask);
      Some((start, start + BlockSize(mask) - 1))
  }

  lemma {:induction false} Pow2Splits(a: nat, b: nat)
    ensures Pow2(a + b) == Pow2(a) * Pow2(b)
  {
    if a > 0 {
      Pow2Splits(a - 1, b);
      assert 2 * (Pow2(a - 1) * Pow2(b)) == (2 * Pow2(a - 1)) * Pow2(b);
    }
  }

  lemma Pow32()
    ensures Pow2(32) == TWO32
  {
    assert Pow2(8) == 256;
    Pow2Splits(8, 8);
    Pow2Splits(16, 16);
  }

  lemma TimesMonotone(p: int, q: int, m: nat)
    requires p <= q
    ensures Times(p, m) <= Times(q, m)
  {
    assert Times(q, m) - Times(p, m) == (q - p) * m;
  }

  /** A multiple of m below k blocks of m is at least one block below. */
  lemma BlockFits(q: int, m: nat, k: int)
    requires Times(q, m) < Times(k, m)
    ensures Times(q, m) + m <= Times(k, m)
  {
    if k <= q {
      TimesMonotone(k, q, m);
    } else {
      TimesMonotone(q + 1, k, m);
    }
  }

  lemma RoundedDown(a: nat, m: nat)
    requires m > 0
    ensures a - a % m == Times(a / m, m) <= a < Times(a / m, m) + m
    ensures Times(1, m) == m
  {
  }

  lemma Pow2Product(a: nat, b: nat)
    ensures Times(Pow2(a), Pow2(b)) == Pow2(a + b)
  {
    Pow2Splits(a, b);
  }

  /** Every block is aligned, stays within 32 bits and holds the address it was written with. */
  lemma RangeAligned(ip: int, tag: Tag)
    requires tag.mask <= 32
    ensures var (start, end) := CidrToRange(ip, tag.mask).value;
            Aligned(Entry(start, end, tag)) && start <= ip % TWO32 <= end
  {
    hide Pow2, Times, MultipleOf;
    var low, host := ip % TWO32, BlockSize(tag.mask);
    Pow32();
    if tag.mask < 0 {
      RoundedDown(0, host);
      BlockBounds(low, host, 1);
    } else {
      Pow2Product(tag.mask, 32 - tag.mask);
      BlockBounds(low, host, Pow2(tag.mask));
    }
  }

  /** Among k blocks of m addresses, the one around an address lies within all of them. */
  lemma BlockBounds(a: nat, m: nat, k: nat)
    requires m > 0 && a < Times(k, m)
    ensures var start := a - a % m;
            MultipleOf(start, m) && 0 <= start <= a <= start + m - 1 < Times(k, m)
  {
    hide Times;
    RoundedDown(a, m);
    BlockFits(a / m, m, k);
  }

  /** Two blocks of one size that share an address are the same block. */
  lemma SameBlock(a: Entry, b: Entry, x: int)
    requires Aligned(a) && Aligned(b) && a.tag.mask == b.tag.mask && Covers(a, x) && Covers(b, x)
    ensures a.start == b.start && a.end == b.end
  {
    hide Pow2, Times;
    var m := BlockSize(a.tag.mask);
    var p :| a.start == Times(p, m);
    var q :| b.start == Times(q, m);
    if a.start < b.start {
      BlockFits(p, m, q);
    } else if b.start < a.start {
      BlockFits(q, m, p);
    }
  }

  /** One end of a range: kind 1 where it starts, -1 just past where it ends; id is the range's place in the input. */
  datatype Event = Event(ip: int, kind: int, id: nat)

  function StartOf(es: seq<Entry>, i: nat): Event
    requires i < |es|
  {
    Event(es[i].start, 1, i)
  }

  function EndOf(es: seq<Entry>, i: nat): Event
    requires i < |es|
  {
    Event(es[i].end + 1, -1, i)
  }

  /** The order of a stable sort by (ip, kind): ends come first, and equal keys keep their input order. */
  predicate Before(e: Event, f: Event) {
    e.ip < f.ip || (e.ip == f.ip && (e.kind < f.kind || (e.kind == f.kind && e.id < f.id)))
  }

  ghost predicate InOrder(evs: seq<Event>) {
    forall a, b :: 0 <= a < b < |evs| ==> Before(evs[a], evs[b])
  }

  /** The events are exactly the two ends of each of the first n ranges. */
  ghost predicate EventsOf(es: seq<Entry>, n: nat, evs: seq<Event>)
    requires n <= |es|
  {
    && (forall i :: 0 <= i < n ==> StartOf(es, i) in evs && EndOf(es, i) in evs)
    && (forall k :: 0 <= k < |evs| ==>
          evs[k].id < n && (evs[k] == StartOf(es, evs[k].id) || evs[k] == EndOf(es, evs[k].id)))
  }

  lemma PlacedInOrder(evs: seq<Event>, e: Event, k: nat)
    requires InOrder(evs) && k <= |evs|
    requires forall j :: k <= j < |evs| ==> Before(e, evs[j])
    requires k > 0 ==> Before(evs[k - 1], e)
    ensures InOrder(evs[..k] + [e] + evs[k..])
  {
    var r := evs[..k] + [e] + evs[k..];
    assert forall j :: 0 <= j < k ==> j == k - 1 || Before(evs[j], evs[k - 1]);
    assert forall j :: 0 <= j < k ==> r[j] == evs[j];
    assert r[k] == e;
    assert forall j :: k < j < |r| ==> r[j] == evs[j - 1];
    forall a, b | 0 <= a < b < |r| ensures Before(r[a], r[b]) {
      if a < k && b < k {
        assert Before(evs[a], evs[b]);
      } else if a < k && b > k {
        assert Before(evs[a], evs[b - 1]);
      } else if a > k {
        assert Before(evs[a - 1], evs[b - 1]);
      }
    }
  }

  lemma PlacedElements(evs: seq<Event>, e: Event, k: nat)
    requires k <= |evs|
    ensures forall f :: f in evs[..k] + [e] + evs[k..] <==> f == e || f in evs
  {
    assert evs == evs[..k] + evs[k..];
  }

  /** Puts one event into its place. */
  method Place(evs: seq<Event>, e: Event) returns (r: seq<Event>)
    requires InOrder(evs) && e !in evs
    ensures InOrder(r)
    ensures forall f :: f in r <==> f == e || f in evs
  {
    var k := |evs|;
    while k > 0 && Before(e, evs[k - 1])
      invariant 0 <= k <= |evs|
      invariant forall j :: k <= j < |evs| ==> Before(e, evs[j])
    {
      k := k - 1;
    }
    if k > 0 {
      assert evs[k - 1] in evs;
      assert Before(evs[k - 1], e);
    }
    r := evs[..k] + [e] + evs[k..];
    PlacedInOrder(evs, e, k);
    PlacedElements(evs, e, k);
  }

  /** The events of all ranges, sorted. */
  method SortedEvents(es: seq<Entry>) returns (evs: seq<Event>)
    ensures InOrder(evs) && EventsOf(es, |es|, evs)
  {
    evs := [];
    for i := 0 to |es|
      invariant InOrder(evs) && EventsOf(es, i, evs)
    {
      var one := Place(evs, StartOf(es, i));
      evs := Place(one, EndOf(es, i));
      assert forall k :: 0 <= k < |evs| ==> evs[k] in evs;
    }
  }

  /** Range i has started and not ended among the first k events. */
  ghost predicate Open(es: seq<Entry>, done: seq<Event>, i: nat)
    requires i < |es|
  {
    StartOf(es, i) in done && EndOf(es, i) !in done
  }

  /** ids lists the open ranges in the order they were started. */
  ghost predicate OpenInOrder(es: seq<Entry>, done: seq<Event>, ids: seq<nat>) {
    && (forall a :: 0 <= a < |ids| ==> ids[a] < |es| && Open(es, done, ids[a]))
    && (forall i :: 0 <= i < |es| && Open(es, done, i) ==> i in ids)
    && (forall a, b :: 0 <= a < b < |ids| ==> Before(StartOf(es, ids[a]), StartOf(es, ids[b])))
  }

  ghost predicate TagsOf(es: seq<Entry>, ids: seq<nat>, active: seq<Tag>) {
    && |active| == |ids|
    && forall a :: 0 <= a < |ids| ==> ids[a] < |es| && active[a] == es[ids[a]].tag
  }

  /** The interval holding x, if any, carries the tag of the best range; a covered address is in an interval. */
  ghost predicate Described(es: seq<Entry>, flat: seq<Entry>, x: int) {
    && (forall k :: 0 <= k < |flat| && Covers(flat[k], x) ==>
          exists i: nat :: IsBest(es, x, i) && flat[k].tag == es[i].tag)
    && (forall i :: 0 <= i < |es| && Covers(es[i], x) ==> exists k :: 0 <= k < |flat| && Covers(flat[k], x))
  }

  /** Non-empty intervals in ascending order that do not overlap. */
  ghost predicate Disjoint(flat: seq<Entry>) {
    && (forall k :: 0 <= k < |flat| ==> 0 <= flat[k].start <= flat[k].end < TWO32)
    && (forall j, k :: 0 <= j < k < |flat| ==> flat[j].end < flat[k].start)
  }

  ghost predicate Flattens(es: seq<Entry>, flat: seq<Entry>) {
    Disjoint(flat) && forall x :: Described(es, flat, x)
  }

  /** Tag b has the longest prefix, and is the first that has. */
  ghost predicate LongestFirst(active: seq<Tag>, b: nat)
    requires b < |active|
  {
    forall a :: 0 <= a < |active| ==> active[a].mask < active[b].mask || (active[a].mask == active[b].mask && b <= a)
  }

  /** The first open range with the largest prefix length. */
  method BestTag(active: seq<Tag>) returns (b: nat)
    requires active != []
    ensures b < |active|
    ensures LongestFirst(active, b)
  {
    b := 0;
    for a := 1 to |active|
      invariant b < a
      invariant forall j :: 0 <= j < a ==>
                  active[j].mask < active[b].mask || (active[j].mask == active[b].mask && b <= j)
    {
      if active[a].mask > active[b].mask {
        b := a;
      }
    }
  }

  /** Removes the first open range with this tag. */
  method RemoveFirst(active: seq<Tag>, tag: Tag) returns (p: nat, r: seq<Tag>)
    ensures p <= |active| && (forall a :: 0 <= a < p ==> active[a] != tag) && (p < |active| ==> active[p] == tag)
    ensures p < |active| ==> r == DropAt(active, p)
    ensures p == |active| ==> r == active
  {
    p := 0;
    while p < |active| && active[p] != tag
      invariant p <= |active| && forall a :: 0 <= a < p ==> active[a] != tag
    {
      p := p + 1;
    }
    r := if p < |active| then DropAt(active, p) else active;
  }

  /** Among sorted events, the ones done before the k-th are the ones ordered before it. */
  lemma DoneIsBefore(evs: seq<Event>, k: nat, f: Event)
    requires InOrder(evs) && k < |evs| && f in evs
    ensures f in evs[..k] <==> Before(f, evs[k])
  {
    var j: nat :| j < |evs| && evs[j] == f;
    if j < k {
      assert evs[..k][j] == f;
    } else {
      assert forall i :: 0 <= i < k ==> Before(evs[i], evs[j]);
      assert j == k || Before(evs[k], evs[j]);
    }
  }

  lemma OneMore(evs: seq<Event>, k: nat)
    requires k < |evs|
    ensures evs[..k + 1] == evs[..k] + [evs[k]]
    ensures forall f :: f in evs[..k + 1] <==> f in evs[..k] || f == evs[k]
  {
  }

  lemma OpenAfterStart(es: seq<Entry>, evs: seq<Event>, k: nat, ids: seq<nat>)
    requires AllAligned(es) && InOrder(evs) && EventsOf(es, |es|, evs) && k < |evs| && evs[k].kind == 1
    requires OpenInOrder(es, evs[..k], ids)
    ensures OpenInOrder(es, evs[..k + 1], ids + [evs[k].id])
  {
    var i := evs[k].id;
    assert evs[k] == StartOf(es, i);
    var ids2 := ids + [i];
    OneMore(evs, k);
    DoneIsBefore(evs, k, EndOf(es, i));
    assert Aligned(es[i]);
    forall a | 0 <= a < |ids| ensures Before(StartOf(es, ids2[a]), StartOf(es, i)) {
      DoneIsBefore(evs, k, StartOf(es, ids[a]));
    }
    forall j | 0 <= j < |es| && Open(es, evs[..k + 1], j) ensures j in ids2 {
      if j != i {
        assert Open(es, evs[..k], j);
      } else {
        assert ids2[|ids|] == i;
      }
    }
  }

  /** Of two ranges with one prefix length, the one that starts first ends first. */
  lemma EndsFirst(es: seq<Entry>, j: nat, i: nat)
    requires AllAligned(es) && i < |es| && j < |es| && es[i].tag.mask == es[j].tag.mask
    requires Before(StartOf(es, j), StartOf(es, i))
    ensures Before(EndOf(es, j), EndOf(es, i))
  {
    assert Aligned(es[i]) && Aligned(es[j]);
    if es[i].start <= es[j].end {
      SameBlock(es[i], es[j], es[i].start);
    }
  }

  /** The first open range with the tag of the range that ends is that range itself. */
  lemma RemovedIsEnding(es: seq<Entry>, evs: seq<Event>, k: nat, ids: seq<nat>, active: seq<Tag>, p: nat)
    requires AllAligned(es) && InOrder(evs) && EventsOf(es, |es|, evs) && k < |evs| && evs[k].kind == -1
    requires OpenInOrder(es, evs[..k], ids) && TagsOf(es, ids, active)
    requires p <= |active| && (forall a :: 0 <= a < p ==> active[a] != es[evs[k].id].tag)
    requires p < |active| ==> active[p] == es[evs[k].id].tag
    ensures p < |active| && ids[p] == evs[k].id
  {
    var i := evs[k].id;
    assert evs[k] == EndOf(es, i) && Aligned(es[i]);
    DoneIsBefore(evs, k, StartOf(es, i));
    DoneIsBefore(evs, k, EndOf(es, i));
    assert Open(es, evs[..k], i);
    var at: nat :| at < |ids| && ids[at] == i;
    forall a | 0 <= a < at ensures active[a] != es[i].tag {
      assert Open(es, evs[..k], ids[a]);
      DoneIsBefore(evs, k, EndOf(es, ids[a]));
      if active[a].mask == es[i].tag.mask {
        EndsFirst(es, ids[a], i);
      }
    }
    assert active[at] == es[i].tag;
  }

  function DropAt<T>(s: seq<T>, p: nat): seq<T>
    requires p < |s|
  {
    s[..p] + s[p + 1..]
  }

  /** Dropping one place of a list without repetitions drops that element alone, and keeps the order. */
  ghost predicate Dropped(ids: seq<nat>, p: nat, rest: seq<nat>)
    requires p < |ids|
  {
    && |rest| == |ids| - 1
    && (forall a :: 0 <= a < p ==> rest[a] == ids[a])
    && (forall a :: p <= a < |rest| ==> rest[a] == ids[a + 1])
  }

  lemma OpenAfterEnd(es: seq<Entry>, evs: seq<Event>, k: nat, ids: seq<nat>, p: nat, rest: seq<nat>)
    requires AllAligned(es) && InOrder(evs) && EventsOf(es, |es|, evs) && k < |evs| && evs[k].kind == -1
    requires OpenInOrder(es, evs[..k], ids) && p < |ids| && ids[p] == evs[k].id && Dropped(ids, p, rest)
    ensures OpenInOrder(es, evs[..k + 1], rest)
  {
    hide Before, Aligned;
    assert evs[k] == EndOf(es, ids[p]);
    OneMore(evs, k);
    forall a | 0 <= a < |rest| ensures rest[a] < |es| && Open(es, evs[..k + 1], rest[a]) {
      StillOpen(es, evs[..k], evs[k], ids, p, if a < p then a else a + 1);
    }
    forall a, b | 0 <= a < b < |rest| ensures Before(StartOf(es, rest[a]), StartOf(es, rest[b])) {
      var c, d := if a < p then a else a + 1, if b < p then b else b + 1;
      assert rest[a] == ids[c] && rest[b] == ids[d];
    }
    StillListed(es, evs, k, ids, p, rest);
  }

  lemma StillListed(es: seq<Entry>, evs: seq<Event>, k: nat, ids: seq<nat>, p: nat, rest: seq<nat>)
    requires k < |evs| && OpenInOrder(es, evs[..k], ids) && p < |ids| && Dropped(ids, p, rest)
    requires ids[p] < |es| && evs[k] == EndOf(es, ids[p])
    ensures forall j :: 0 <= j < |es| && Open(es, evs[..k + 1], j) ==> j in rest
  {
    hide Before;
    OneMore(evs, k);
    forall j | 0 <= j < |es| && Open(es, evs[..k + 1], j) ensures j in rest {
      assert Open(es, evs[..k], j);
      var b: nat :| b < |ids| && ids[b] == j;
      assert rest[if b < p then b else b - 1] == j;
    }
  }

  lemma StillOpen(es: seq<Entry>, done: seq<Event>, e: Event, ids: seq<nat>, p: nat, b: nat)
    requires OpenInOrder(es, done, ids) && p < |ids| && b < |ids| && b != p && e == EndOf(es, ids[p])
    ensures Open(es, done + [e], ids[b])
  {
    assert Open(es, done, ids[b]);
    assert Before(StartOf(es, ids[if b < p then b else p]), StartOf(es, ids[if b < p then p else b]));
    assert (done + [e])[..|done|] == done;
  }

  /** Strictly between two consecutive event addresses the covering ranges are the open ones. */
  lemma CoveringIsOpen(es: seq<Entry>, evs: seq<Event>, k: nat, i: nat, x: int)
    requires InOrder(evs) && EventsOf(es, |es|, evs) && k <= |evs| && i < |es|
    requires k > 0 ==> evs[k - 1].ip <= x
    requires k < |evs| ==> x < evs[k].ip
    ensures Covers(es[i], x) <==> Open(es, evs[..k], i)
  {
    DoneUpTo(evs, k, StartOf(es, i), x);
    DoneUpTo(evs, k, EndOf(es, i), x);
    assert EndOf(es, i).ip == es[i].end + 1;
  }

  lemma DoneUpTo(evs: seq<Event>, k: nat, f: Event, x: int)
    requires InOrder(evs) && k <= |evs| && f in evs
    requires k > 0 ==> evs[k - 1].ip <= x
    requires k < |evs| ==> x < evs[k].ip
    ensures f in evs[..k] <==> f.ip <= x
  {
    var j: nat :| j < |evs| && evs[j] == f;
    if j < k {
      assert evs[..k][j] == f;
      assert j == k - 1 || Before(evs[j], evs[k - 1]);
    } else {
      assert j == k || Before(evs[k], evs[j]);
    }
  }

  /** Of two blocks of one prefix length that cover x, the one opened first comes first in the input. */
  lemma OpenedFirst(es: seq<Entry>, i: nat, j: nat, x: int)
    requires AllAligned(es) && i < |es| && j < |es| && es[i].tag.mask == es[j].tag.mask
    requires Covers(es[i], x) && Covers(es[j], x) && Before(StartOf(es, i), StartOf(es, j))
    ensures i < j
  {
    assert Aligned(es[i]) && Aligned(es[j]);
    SameBlock(es[i], es[j], x);
  }

  /** The first open range with the longest prefix is the longest-prefix match. */
  lemma FirstMaximumIsBest(es: seq<Entry>, evs: seq<Event>, k: nat, ids: seq<nat>, active: seq<Tag>, b: nat, x: int)
    requires AllAligned(es) && InOrder(evs) && EventsOf(es, |es|, evs) && k <= |evs|
    requires k > 0 ==> evs[k - 1].ip <= x
    requires k < |evs| ==> x < evs[k].ip
    requires OpenInOrder(es, evs[..k], ids) && TagsOf(es, ids, active) && b < |active|
    requires LongestFirst(active, b)
    ensures ids[b] < |es| && IsBest(es, x, ids[b]) && active[b] == es[ids[b]].tag
  {
    hide AllAligned, InOrder, EventsOf, Open, Covers, Before;
    var i := ids[b];
    CoveringIsOpen(es, evs, k, i, x);
    forall j: nat | j < |es| && Covers(es[j], x)
      ensures es[j].tag.mask < es[i].tag.mask || (es[j].tag.mask == es[i].tag.mask && i <= j)
    {
      CoveringIsOpen(es, evs, k, j, x);
      var a: nat :| a < |ids| && ids[a] == j;
      assert active[a] == es[j].tag;
      if active[a].mask == active[b].mask && b < a {
        OpenedFirst(es, i, j, x);
      }
    }
  }

  /** No interval reaches x, and no range covers it. */
  lemma UncoveredDescribed(es: seq<Entry>, flat: seq<Entry>, x: int)
    requires forall k :: 0 <= k < |flat| ==> flat[k].end < x
    requires forall i :: 0 <= i < |es| ==> !Covers(es[i], x)
    ensures Described(es, flat, x)
  {
  }

  /** A new last interval describes its own addresses and changes nothing below. */
  lemma DescribedByLast(es: seq<Entry>, flat: seq<Entry>, last: Entry, x: int, i: nat)
    requires forall k :: 0 <= k < |flat| ==> flat[k].end < last.start
    requires x <= last.end
    requires x < last.start ==> Described(es, flat, x)
    requires last.start <= x ==> IsBest(es, x, i) && last.tag == es[i].tag
    ensures Described(es, flat + [last], x)
  {
    var flat2 := flat + [last];
    assert flat2[|flat|] == last;
    if x < last.start {
      forall j | 0 <= j < |es| && Covers(es[j], x) ensures exists k :: 0 <= k < |flat2| && Covers(flat2[k], x) {
        var k :| 0 <= k < |flat| && Covers(flat[k], x);
        assert Covers(flat2[k], x);
      }
    } else {
      assert Covers(flat2[|flat|], x);
    }
  }

  /** Everything below the address reached so far is described by the intervals found. */
  ghost predicate Reached(es: seq<Entry>, flat: seq<Entry>, last: int) {
    && Disjoint(flat)
    && (forall k :: 0 <= k < |flat| ==> flat[k].end < last)
    && (forall x :: x < last ==> Described(es, flat, x))
  }

  /** What holds after the first k events. */
  ghost predicate Swept(es: seq<Entry>, evs: seq<Event>, k: nat, ids: seq<nat>, active: seq<Tag>)
    requires k <= |evs|
  {
    OpenInOrder(es, evs[..k], ids) && TagsOf(es, ids, active)
  }

  lemma SweptNone(es: seq<Entry>, evs: seq<Event>)
    ensures Swept(es, evs, 0, [], [])
  {
  }

  lemma SweptStart(es: seq<Entry>, evs: seq<Event>, k: nat, ids: seq<nat>, active: seq<Tag>)
    requires AllAligned(es) && InOrder(evs) && EventsOf(es, |es|, evs) && k < |evs| && evs[k].kind == 1
    requires Swept(es, evs, k, ids, active)
    ensures Swept(es, evs, k + 1, ids + [evs[k].id], active + [es[evs[k].id].tag])
  {
    hide Before, Open, Aligned;
    OpenAfterStart(es, evs, k, ids);
  }

  lemma SweptEnd(es: seq<Entry>, evs: seq<Event>, k: nat, ids: seq<nat>, active: seq<Tag>, p: nat)
    requires AllAligned(es) && InOrder(evs) && EventsOf(es, |es|, evs) && k < |evs| && evs[k].kind == -1
    requires Swept(es, evs, k, ids, active)
    requires p <= |active| && (forall a :: 0 <= a < p ==> active[a] != es[evs[k].id].tag)
    requires p < |active| ==> active[p] == es[evs[k].id].tag
    ensures p < |active| && p < |ids|
    ensures Swept(es, evs, k + 1, DropAt(ids, p), DropAt(active, p))
  {
    hide Before, Open, Aligned;
    RemovedIsEnding(es, evs, k, ids, active, p);
    var rest := DropAt(ids, p);
    OpenAfterEnd(es, evs, k, ids, p, rest);
  }

  /** Moves on from the last event's address to the next one's. */
  lemma ReachedNext(es: seq<Entry>, evs: seq<Event>, k: nat, ids: seq<nat>, active: seq<Tag>, flat: seq<Entry>, b: nat)
    requires AllAligned(es) && InOrder(evs) && EventsOf(es, |es|, evs) && 0 < k < |evs|
    requires evs[k - 1].ip < evs[k].ip
    requires Swept(es, evs, k, ids, active) && b < |active|
    requires LongestFirst(active, b)
    requires Reached(es, flat, evs[k - 1].ip)
    ensures Reached(es, flat + [Entry(evs[k - 1].ip, evs[k].ip - 1, active[b])], evs[k].ip)
  {
    hide AllAligned, InOrder, EventsOf, OpenInOrder, TagsOf, Described, IsBest, LongestFirst;
    var last := Entry(evs[k - 1].ip, evs[k].ip - 1, active[b]);
    EventBounds(es, evs, k - 1);
    EventBounds(es, evs, k);
    TagCount(es, evs, k, ids, active);
    forall x | x < evs[k].ip ensures Described(es, flat + [last], x) {
      if last.start <= x {
        FirstMaximumIsBest(es, evs, k, ids, active, b, x);
      }
      DescribedByLast(es, flat, last, x, ids[b]);
    }
  }

  lemma EventBounds(es: seq<Entry>, evs: seq<Event>, k: nat)
    requires AllAligned(es) && EventsOf(es, |es|, evs) && k < |evs|
    ensures 0 <= evs[k].ip <= TWO32
  {
    assert Aligned(es[evs[k].id]);
  }

  lemma TagCount(es: seq<Entry>, evs: seq<Event>, k: nat, ids: seq<nat>, active: seq<Tag>)
    requires k <= |evs| && Swept(es, evs, k, ids, active)
    ensures |ids| == |active|
  {
    hide OpenInOrder;
  }

  /** With nothing open, the addresses up to the next event are not covered. */
  lemma ReachedGap(es: seq<Entry>, evs: seq<Event>, k: nat, ids: seq<nat>, active: seq<Tag>, flat: seq<Entry>, to: int)
    requires InOrder(evs) && EventsOf(es, |es|, evs) && k <= |evs|
    requires k < |evs| ==> to <= evs[k].ip
    requires Swept(es, evs, k, ids, active) && active == []
    requires k > 0 ==> Reached(es, flat, evs[k - 1].ip)
    requires k == 0 ==> flat == []
    requires k > 0 ==> evs[k - 1].ip <= to
    ensures Reached(es, flat, to)
  {
    forall x | x < to && (k > 0 ==> evs[k - 1].ip <= x) ensures Described(es, flat, x) {
      forall i: nat | i < |es| ensures !Covers(es[i], x) {
        CoveringIsOpen(es, evs, k, i, x);
      }
      UncoveredDescribed(es, flat, x);
    }
  }

  /** Once every event is done no range is open. */
  lemma NoneOpen(es: seq<Entry>, evs: seq<Event>, ids: seq<nat>, active: seq<Tag>)
    requires EventsOf(es, |es|, evs) && Swept(es, evs, |evs|, ids, active)
    ensures active == []
  {
    assert evs[..|evs|] == evs;
    var first := if |ids| > 0 then ids[0] else 0;
    assert forall i :: 0 <= i < |es| ==> !Open(es, evs, i);
  }

  lemma EventFacts(es: seq<Entry>, evs: seq<Event>, k: nat)
    requires InOrder(evs) && EventsOf(es, |es|, evs) && k < |evs|
    ensures k > 0 ==> evs[k - 1].ip <= evs[k].ip
    ensures evs[k].id < |es| && (evs[k].kind == 1 || evs[k].kind == -1)
  {
    hide AllAligned;
  }

  /** Emits the interval between two event addresses, if anything is open there. */
  method Emit(last: Option<int>, ip: int, active: seq<Tag>, flat: seq<Entry>,
              ghost es: seq<Entry>, ghost evs: seq<Event>, ghost k: nat, ghost ids: seq<nat>) returns (r: seq<Entry>)
    requires AllAligned(es) && InOrder(evs) && EventsOf(es, |es|, evs) && k < |evs| && ip == evs[k].ip
    requires Swept(es, evs, k, ids, active)
    requires if k == 0 then last == None && flat == [] && active == []
             else last == Some(evs[k - 1].ip) && Reached(es, flat, evs[k - 1].ip)
    ensures Reached(es, r, ip)
  {
    hide AllAligned, InOrder, EventsOf, Swept, Reached, LongestFirst;
    EventFacts(es, evs, k);
    r := flat;
    if last.Some? && ip > last.value && active != [] {
      var b := BestTag(active);
      ReachedNext(es, evs, k, ids, active, flat, b);
      r := r + [Entry(last.value, ip - 1, active[b])];
    } else if active == [] {
      ReachedGap(es, evs, k, ids, active, flat, ip);
    }
  }

  /** The intervals the sweep emits answer every address exactly as longest-prefix match does. */
  method Sweep(es: seq<Entry>) returns (flat: seq<Entry>)
    requires AllAligned(es)
    ensures Flattens(es, flat)
  {
    hide AllAligned, InOrder, EventsOf, Swept, Reached, Flattens, DropAt;
    var evs := SortedEvents(es);
    var active: seq<Tag> := [];
    ghost var ids: seq<nat> := [];
    var last: Option<int> := None;
    flat := [];
    SweptNone(es, evs);
    for k := 0 to |evs|
      invariant Swept(es, evs, k, ids, active)
      invariant if k == 0 then last == None && flat == [] && active == []
                else last == Some(evs[k - 1].ip) && Reached(es, flat, evs[k - 1].ip)
    {
      var e := evs[k];
      EventFacts(es, evs, k);
      flat := Emit(last, e.ip, active, flat, es, evs, k, ids);
      if e.kind == 1 {
        SweptStart(es, evs, k, ids, active);
        active := active + [es[e.id].tag];
        ids := ids + [e.id];
      } else {
        var p, rest := RemoveFirst(active, es[e.id].tag);
        SweptEnd(es, evs, k, ids, active, p);
        active := rest;
        ids := DropAt(ids, p);
      }
      last := Some(e.ip);
    }
    NoneOpen(es, evs, ids, active);
    SweptAll(es, evs, ids, active, flat);
  }

  lemma SweptAll(es: seq<Entry>, evs: seq<Event>, ids: seq<nat>, active: seq<Tag>, flat: seq<Entry>)
    requires InOrder(evs) && EventsOf(es, |es|, evs) && Swept(es, evs, |evs|, ids, active) && active == []
    requires if evs == [] then flat == [] else Reached(es, flat, evs[|evs| - 1].ip)
    ensures Flattens(es, flat)
  {
    hide Described, InOrder, EventsOf, OpenInOrder, Disjoint;
    var low := if evs == [] then 0 else evs[|evs| - 1].ip;
    ReachedGap(es, evs, |evs|, ids, active, flat, low);
    forall x ensures Described(es, flat, x) {
      if low <= x {
        ReachedGap(es, evs, |evs|, ids, active, flat, x + 1);
      }
    }
  }
}
