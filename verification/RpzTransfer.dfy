/** Parsing a zone transfer into a delta: full transfers and incremental ones (RFC 1995, section 4). */
module RpzTransfer {
  import opened Basics
  import opened Bytes
  import opened Text
  import opened RpzNames
  import opened RpzRecords
  import opened RpzSerial
  import opened Sorting

  datatype TransferError =
    | EmptyTransfer | NoOpeningSoa | CutAfterOpening | NotClosed | BadPolicyOwner
    | WrongStart | TargetNotNewer | BadFromSoa | DeletesCut | BadToSoa | AddsCut | BadNextSoa
    | AfterClosing | PastTarget | StreamFault | TooManyRecords | SoaMismatch | SerialMismatch

  predicate ZoneSoa(rr: RR, zone: text) {
    rr.Soa? && ToLower(rr.owner) == zone
  }

  /** One difference sequence: from this serial, delete these, then add these, to that serial. */
  datatype Diff = Diff(fromSerial: u32, dels: seq<RR>, toSerial: u32, adds: seq<RR>)

  // ------------------------------------------------------------- grammar

  ghost predicate NoSoa(rs: seq<RR>) {
    forall i :: 0 <= i < |rs| ==> !rs[i].Soa?
  }

  /** One sequence in front of the rest: from-SOA, deletions, to-SOA, additions. */
  ghost predicate Leads(rs: seq<RR>, zone: text, d: Diff) {
    var m := 1 + |d.dels|;
    && m + 1 + |d.adds| < |rs|
    && ZoneSoa(rs[0], zone) && rs[0].serial == d.fromSerial
    && rs[1..m] == d.dels && NoSoa(d.dels) && OwnersOk(d.dels, zone)
    && ZoneSoa(rs[m], zone) && rs[m].serial == d.toSerial
    && rs[m + 1..m + 1 + |d.adds|] == d.adds && NoSoa(d.adds) && OwnersOk(d.adds, zone)
  }

  function Span(d: Diff): nat {
    2 + |d.dels| + |d.adds|
  }

  /**
   * The records are these difference sequences one after the other, closed by one SOA of the target:
   * serials only move forward, never past the target, and each sequence starts where the last one ended.
   */
  ghost predicate IsChain(rs: seq<RR>, zone: text, from: u32, target: u32, diffs: seq<Diff>)
    decreases |diffs|
  {
    && diffs != []
    && var d := diffs[0];
    && d.fromSerial == from && Leads(rs, zone, d) && SerialGreater(d.toSerial, from)
    && var rest := rs[Span(d)..];
    && ZoneSoa(rest[0], zone) && rest[0].serial == d.toSerial
    && if d.toSerial == target then |rest| == 1 && |diffs| == 1
       else SerialGreater(target, d.toSerial) && IsChain(rest, zone, d.toSerial, target, diffs[1..])
  }

  // -------------------------------------------------------------- parser

  function ScanSoa(rs: seq<RR>, i: nat): (k: nat)
    requires i <= |rs|
    ensures i <= k <= |rs|
    ensures forall j :: i <= j < k ==> !rs[j].Soa?
    ensures k < |rs| ==> rs[k].Soa?
    decreases |rs| - i
  {
    if i == |rs| || rs[i].Soa? then i else ScanSoa(rs, i + 1)
  }

  method FindSoa(rs: seq<RR>, from: nat) returns (i: nat)
    requires from <= |rs|
    ensures i == ScanSoa(rs, from)
  {
    i := from;
    while i < |rs| && !rs[i].Soa?
      invariant from <= i <= |rs| && ScanSoa(rs, from) == ScanSoa(rs, i)
    {
      i := i + 1;
    }
  }

  /** The sequence starting at index i and the index of the record behind it. */
  function ParseOne(rs: seq<RR>, zone: text, expectedFrom: u32, i: nat): (r: Result<(Diff, nat), TransferError>)
    requires i < |rs|
    ensures r.Ok? ==> i < r.value.1 < |rs|
  {
    if !(ZoneSoa(rs[i], zone) && rs[i].serial == expectedFrom) then Err(BadFromSoa)
    else
      var j := ScanSoa(rs, i + 1);
      if j >= |rs| then Err(DeletesCut)
      else if !(ZoneSoa(rs[j], zone) && SerialGreater(rs[j].serial, expectedFrom)) then Err(BadToSoa)
      else if !OwnersOk(rs[i + 1..j], zone) then Err(BadPolicyOwner)
      else
        var k := ScanSoa(rs, j + 1);
        if k >= |rs| then Err(AddsCut)
        else if !OwnersOk(rs[j + 1..k], zone) then Err(BadPolicyOwner)
        else if !(ZoneSoa(rs[k], zone) && rs[k].serial == rs[j].serial) then Err(BadNextSoa)
        else Ok((Diff(expectedFrom, rs[i + 1..j], rs[j].serial, rs[j + 1..k]), k))
  }

  function ParseChain(rs: seq<RR>, zone: text, target: u32, expectedFrom: u32, i: nat): Result<seq<Diff>, TransferError>
    requires i < |rs|
    decreases |rs| - i
  {
    match ParseOne(rs, zone, expectedFrom, i)
    case Err(e) => Err(e)
    case Ok((d, k)) =>
      if d.toSerial == target then (if k + 1 == |rs| then Ok([d]) else Err(AfterClosing))
      else if !SerialGreater(target, d.toSerial) then Err(PastTarget)
      else
        match ParseChain(rs, zone, target, d.toSerial, k)
        case Err(e) => Err(e)
        case Ok(rest) => Ok([d] + rest)
  }

  lemma ParseOneLeads(rs: seq<RR>, zone: text, from: u32, i: nat)
    requires i < |rs| && ParseOne(rs, zone, from, i).Ok?
    ensures var (d, k) := ParseOne(rs, zone, from, i).value;
            && Leads(rs[i..], zone, d) && d.fromSerial == from && SerialGreater(d.toSerial, from)
            && k == i + Span(d) && ZoneSoa(rs[k], zone) && rs[k].serial == d.toSerial
  {
    hide ZoneSoa, PolicyOwner, SerialGreater, OwnersOk, ScanSoa;
    var (d, k) := ParseOne(rs, zone, from, i).value;
    var j, s := ScanSoa(rs, i + 1), rs[i..];
    SubSection(rs, i, 1, 1 + |d.dels|);
    SubSection(rs, i, 2 + |d.dels|, 2 + |d.dels| + |d.adds|);
    ScannedSection(rs, i + 1);
    ScannedSection(rs, j + 1);
    assert s[0] == rs[i] && s[1 + |d.dels|] == rs[j];
  }

  lemma ScannedSection(rs: seq<RR>, i: nat)
    requires i <= |rs|
    ensures i <= ScanSoa(rs, i) <= |rs| && NoSoa(rs[i..ScanSoa(rs, i)])
  {
    hide ScanSoa;
  }

  lemma {:induction false} ScanIs(rs: seq<RR>, i: nat, k: nat)
    requires i <= k < |rs| && rs[k].Soa?
    requires forall j :: i <= j < k ==> !rs[j].Soa?
    ensures ScanSoa(rs, i) == k
    decreases k - i
  {
    if i < k {
      ScanIs(rs, i + 1, k);
    }
  }

  lemma SubSection(rs: seq<RR>, i: nat, a: nat, b: nat)
    requires a <= b && i + b <= |rs|
    ensures rs[i..][a..b] == rs[i + a..i + b]
  {
  }

  lemma LeadsParseOne(rs: seq<RR>, zone: text, i: nat, d: Diff)
    requires i <= |rs| && Leads(rs[i..], zone, d) && SerialGreater(d.toSerial, d.fromSerial)
    requires var k := i + Span(d); ZoneSoa(rs[k], zone) && rs[k].serial == d.toSerial
    ensures ParseOne(rs, zone, d.fromSerial, i) == Ok((d, i + Span(d)))
  {
    hide PolicyOwner, SerialGreater, OwnersOk, ScanSoa, ToLower;
    var s, m, k := rs[i..], 1 + |d.dels|, i + Span(d);
    SubSection(rs, i, 1, m);
    SubSection(rs, i, m + 1, m + 1 + |d.adds|);
    assert rs[i] == s[0] && rs[i + m] == s[m];
    SectionScan(rs, i + 1, d.dels);
    SectionScan(rs, i + m + 1, d.adds);
  }

  /** Over records without SOA the scan goes to the SOA behind them. */
  lemma SectionScan(rs: seq<RR>, from: nat, part: seq<RR>)
    requires from + |part| < |rs| && rs[from..from + |part|] == part && NoSoa(part) && rs[from + |part|].Soa?
    ensures ScanSoa(rs, from) == from + |part|
  {
    hide ScanSoa;
    forall j | from <= j < from + |part| ensures !rs[j].Soa? {
      assert rs[j] == part[j - from];
    }
    ScanIs(rs, from, from + |part|);
  }

  /** Parsing succeeds on exactly the chains, and returns their sequences. */
  lemma {:induction false} ParseIsChain(rs: seq<RR>, zone: text, target: u32, from: u32, i: nat)
    requires i < |rs| && ParseChain(rs, zone, target, from, i).Ok?
    ensures IsChain(rs[i..], zone, from, target, ParseChain(rs, zone, target, from, i).value)
    decreases |rs| - i
  {
    hide ZoneSoa;
    hide SerialGreater;
    hide ParseOne;
    hide Leads;
    ParseOneLeads(rs, zone, from, i);
    var (d, k) := ParseOne(rs, zone, from, i).value;
    assert rs[i..][Span(d)..] == rs[k..];
    if d.toSerial != target {
      ParseIsChain(rs, zone, target, d.toSerial, k);
      var diffs := ParseChain(rs, zone, target, from, i).value;
      assert diffs[1..] == ParseChain(rs, zone, target, d.toSerial, k).value;
    }
  }

  lemma {:induction false} ChainParses(rs: seq<RR>, zone: text, target: u32, from: u32, i: nat, diffs: seq<Diff>)
    requires i < |rs| && IsChain(rs[i..], zone, from, target, diffs)
    ensures ParseChain(rs, zone, target, from, i) == Ok(diffs)
    decreases |diffs|
  {
    hide ZoneSoa;
    hide SerialGreater;
    hide ParseOne;
    var d, k := diffs[0], i + Span(diffs[0]);
    LeadsSpan(rs[i..], zone, d);
    assert rs[i..][Span(d)..] == rs[k..];
    LeadsParseOne(rs, zone, i, d);
    if d.toSerial != target {
      ChainParses(rs, zone, target, d.toSerial, k, diffs[1..]);
      assert diffs == [d] + diffs[1..];
    } else {
      assert diffs == [d];
    }
  }

  lemma LeadsSpan(rs: seq<RR>, zone: text, d: Diff)
    requires Leads(rs, zone, d)
    ensures Span(d) < |rs|
  {
  }

  // ------------------------------------------------- net effect of a chain

  /** The last word a chain says about each domain it mentions: present or not. */
  function Mark(changes: map<text, bool>, domains: set<text>, present: bool): map<text, bool> {
    map d | d in changes.Keys + domains :: if d in domains then present else changes[d]
  }

  function Changes(diffs: seq<Diff>, zone: text): map<text, bool> {
    if diffs == [] then map[]
    else
      var d := diffs[|diffs| - 1];
      Mark(Mark(Changes(diffs[..|diffs| - 1], zone), Owners(d.dels, zone), false), Owners(d.adds, zone), true)
  }

  function Marked(changes: map<text, bool>, present: bool): set<text> {
    set d | d in changes && changes[d] == present
  }

  /** Doing the difference sequences one after the other: delete part, then add part. */
  function Replay(diffs: seq<Diff>, zone: text, s: set<text>): set<text> {
    if diffs == [] then s
    else
      var d := diffs[|diffs| - 1];
      Replay(diffs[..|diffs| - 1], zone, s) - Owners(d.dels, zone) + Owners(d.adds, zone)
  }

  /** Removing what ended up absent and adding what ended up present is the whole replay. */
  lemma {:induction false} NetIsReplay(diffs: seq<Diff>, zone: text, s: set<text>)
    ensures s - Marked(Changes(diffs, zone), false) + Marked(Changes(diffs, zone), true) == Replay(diffs, zone, s)
  {
    hide Owners;
    if diffs != [] {
      var front, d := diffs[..|diffs| - 1], diffs[|diffs| - 1];
      NetIsReplay(front, zone, s);
      MarkStep(Changes(front, zone), Owners(d.dels, zone), false, s);
      MarkStep(Mark(Changes(front, zone), Owners(d.dels, zone), false), Owners(d.adds, zone), true, s);
    }
  }

  lemma MarkStep(changes: map<text, bool>, domains: set<text>, present: bool, s: set<text>)
    ensures var before := s - Marked(changes, false) + Marked(changes, true);
            var after := Mark(changes, domains, present);
            s - Marked(after, false) + Marked(after, true) == if present then before + domains else before - domains
  {
  }

  /** The delta of a chain: final additions and deletions, each sorted. */
  ghost function NetDelta(diffs: seq<Diff>, zone: text, from: u32, target: u32): Delta {
    var changes := Changes(diffs, zone);
    Delta(from, target, false, Sorted(Marked(changes, true)), Sorted(Marked(changes, false)), None)
  }

  // ------------------------------------------------------ whole responses

  /** The specification of parseTransferRecords; no delta means the zone is up to date. */
  ghost function ParseTransfer(records: seq<RR>, zoneText: text, current: u32): Result<Option<Delta>, TransferError> {
    var zone := ToLower(Fqdn(zoneText));
    if records == [] then Err(EmptyTransfer)
    else if !ZoneSoa(records[0], zone) then Err(NoOpeningSoa)
    else if |records| == 1 then (if current == records[0].serial then Ok(None) else Err(CutAfterOpening))
    else if !records[1].Soa? then
      var last := |records| - 1;
      if !(ZoneSoa(records[last], zone) && records[last].serial == records[0].serial) then Err(NotClosed)
      else if !OwnersOk(records[1..last], zone) then Err(BadPolicyOwner)
      else Ok(Some(Delta(current, records[0].serial, true, Sorted(Owners(records[1..last], zone)), [], None)))
    else if !(ZoneSoa(records[1], zone) && records[1].serial == current) then Err(WrongStart)
    else if !SerialGreater(records[0].serial, current) then Err(TargetNotNewer)
    else
      match ParseChain(records, zone, records[0].serial, current, 1)
      case Err(e) => Err(e)
      case Ok(diffs) => Ok(Some(NetDelta(diffs, zone, current, records[0].serial)))
  }

  method ParseTransferRecords(records: seq<RR>, zoneText: text, current: u32)
      returns (r: Result<Option<Delta>, TransferError>)
    ensures r == ParseTransfer(records, zoneText, current)
  {
    var zone := ToLower(Fqdn(zoneText));
    if records == [] {
      return Err(EmptyTransfer);
    }
    if !ZoneSoa(records[0], zone) {
      return Err(NoOpeningSoa);
    }
    var first := records[0].serial;
    if |records| == 1 {
      return if current == first then Ok(None) else Err(CutAfterOpening);
    }
    if !records[1].Soa? {
      var last := |records| - 1;
      if !(ZoneSoa(records[last], zone) && records[last].serial == first) {
        return Err(NotClosed);
      }
      var added := PolicyOwners(records[1..last], zone);
      if added.None? {
        return Err(BadPolicyOwner);
      }
      return Ok(Some(Delta(current, first, true, added.value, [], None)));
    }
    if !(ZoneSoa(records[1], zone) && records[1].serial == current) {
      return Err(WrongStart);
    }
    if !SerialGreater(first, current) {
      return Err(TargetNotNewer);
    }
    var changes := FoldChain(records, zone, first, current);
    if changes.Err? {
      return Err(changes.error);
    }
    var deleted := SortSet(Marked(changes.value, false));
    var added := SortSet(Marked(changes.value, true));
    r := Ok(Some(Delta(current, first, false, added, deleted, None)));
  }

  /** The changes of parsed sequences, or their error. */
  ghost function Folded(r: Result<seq<Diff>, TransferError>, zone: text): Result<map<text, bool>, TransferError> {
    if r.Err? then Err(r.error) else Ok(Changes(r.value, zone))
  }

  /** The to-serial and end of one parsed sequence with its two sections marked, or its error. */
  ghost function FoldedOne(r: Result<(Diff, nat), TransferError>, zone: text, changes: map<text, bool>)
    : Result<(u32, nat, map<text, bool>), TransferError>
  {
    if r.Err? then Err(r.error)
    else
      var (d, k) := r.value;
      Ok((d.toSerial, k, Mark(Mark(changes, Owners(d.dels, zone), false), Owners(d.adds, zone), true)))
  }

  /** The loop over the difference sequences: one index through the records, one map of changes. */
  method FoldChain(records: seq<RR>, zone: text, target: u32, current: u32)
      returns (r: Result<map<text, bool>, TransferError>)
    requires |records| > 1
    ensures r == Folded(ParseChain(records, zone, target, current, 1), zone)
  {
    hide ZoneSoa, SerialGreater, Owners, OwnersOk, Mark, Changes, ParseOne;
    var changes: map<text, bool> := map[];
    var expectedFrom, i := current, 1;
    ghost var done: seq<Diff> := [];
    ChangesNil(zone);
    PrependNil(ParseChain(records, zone, target, current, 1));
    while true
      invariant 1 <= i < |records|
      invariant changes == Changes(done, zone)
      invariant ParseChain(records, zone, target, current, 1) ==
                Prepend(done, ParseChain(records, zone, target, expectedFrom, i))
      decreases |records| - i
    {
      var step := FoldOne(records, zone, expectedFrom, i, changes);
      if step.Err? {
        return Err(step.error);
      }
      ghost var d := ParseOne(records, zone, expectedFrom, i).value.0;
      var (to, k, marked) := step.value;
      ChangesNext(done, d, zone);
      if to == target {
        return if k + 1 == |records| then Ok(marked) else Err(AfterClosing);
      }
      if !SerialGreater(target, to) {
        return Err(PastTarget);
      }
      PrependNext(done, d, ParseChain(records, zone, target, to, k));
      changes, expectedFrom, i, done := marked, to, k, done + [d];
    }
  }

  /** One sequence: its to-serial, the index behind it, and the changes with it folded in. */
  method FoldOne(records: seq<RR>, zone: text, expectedFrom: u32, start: nat, changes: map<text, bool>)
      returns (r: Result<(u32, nat, map<text, bool>), TransferError>)
    requires start < |records|
    ensures r == FoldedOne(ParseOne(records, zone, expectedFrom, start), zone, changes)
    ensures r.Ok? ==> start < r.value.1 < |records|
  {
    hide SerialGreater, Owners, OwnersOk, Mark, PolicyOwner, ToLower;
    if !(ZoneSoa(records[start], zone) && records[start].serial == expectedFrom) {
      return Err(BadFromSoa);
    }
    var i := FindSoa(records, start + 1);
    if i >= |records| {
      return Err(DeletesCut);
    }
    var to := records[i];
    if !(ZoneSoa(to, zone) && SerialGreater(to.serial, expectedFrom)) {
      return Err(BadToSoa);
    }
    var deleted := PolicyOwners(records[start + 1..i], zone);
    if deleted.None? {
      return Err(BadPolicyOwner);
    }
    var marked := MarkAll(changes, deleted.value, false);
    var k := FindSoa(records, i + 1);
    if k >= |records| {
      return Err(AddsCut);
    }
    var added := PolicyOwners(records[i + 1..k], zone);
    if added.None? {
      return Err(BadPolicyOwner);
    }
    marked := MarkAll(marked, added.value, true);
    if !(ZoneSoa(records[k], zone) && records[k].serial == to.serial) {
      return Err(BadNextSoa);
    }
    r := Ok((to.serial, k, marked));
  }

  method MarkAll(changes: map<text, bool>, domains: seq<text>, present: bool) returns (r: map<text, bool>)
    ensures r == Mark(changes, Elems(domains), present)
  {
    r := changes;
    for i := 0 to |domains|
      invariant r == Mark(changes, Elems(domains[..i]), present)
    {
      r := r[domains[i] := present];
      assert Elems(domains[..i + 1]) == Elems(domains[..i]) + {domains[i]};
    }
    assert domains[..|domains|] == domains;
  }

  ghost function Prepend(done: seq<Diff>, r: Result<seq<Diff>, TransferError>): Result<seq<Diff>, TransferError> {
    match r
    case Err(e) => Err(e)
    case Ok(rest) => Ok(done + rest)
  }

  lemma PrependNil(r: Result<seq<Diff>, TransferError>)
    ensures Prepend([], r) == r
  {
    if r.Ok? {
      assert [] + r.value == r.value;
    }
  }

  lemma PrependNext(done: seq<Diff>, d: Diff, r: Result<seq<Diff>, TransferError>)
    ensures Prepend(done, Prepend([d], r)) == Prepend(done + [d], r)
  {
    if r.Ok? {
      assert done + ([d] + r.value) == done + [d] + r.value;
    }
  }

  lemma ChangesNil(zone: text)
    ensures Changes([], zone) == map[]
  {
  }

  lemma ChangesNext(done: seq<Diff>, d: Diff, zone: text)
    ensures Changes(done + [d], zone) ==
              Mark(Mark(Changes(done, zone), Owners(d.dels, zone), false), Owners(d.adds, zone), true)
  {
    hide Owners, Mark;
    assert (done + [d])[..|done|] == done;
  }

  // ---------------------------------------------------------- main results

  /**
   * An accepted incremental response is a chain of difference sequences from the current serial to the
   * target; its delta has disjoint, sorted, duplicate-free parts and means the same as the whole replay.
   */
  lemma IncrementalMeaning(records: seq<RR>, zoneText: text, current: u32) returns (diffs: seq<Diff>)
    requires ParseTransfer(records, zoneText, current).Ok?
    requires ParseTransfer(records, zoneText, current).value.Some?
    requires !ParseTransfer(records, zoneText, current).value.value.full
    ensures var zone := ToLower(Fqdn(zoneText));
            var delta := ParseTransfer(records, zoneText, current).value.value;
            && delta.fromSerial == current && delta.toSerial == records[0].serial && NetForm(delta)
            && IsChain(records[1..], zone, current, delta.toSerial, diffs)
            && delta == NetDelta(diffs, zone, current, delta.toSerial)
            && forall s: set<text> :: Apply(delta, s) == Replay(diffs, zone, s)
  {
    hide PolicyOwner, OwnersOk, Owners, IsChain, Changes, ParseOne;
    var zone := ToLower(Fqdn(zoneText));
    diffs := ParseChain(records, zone, records[0].serial, current, 1).value;
    ParseIsChain(records, zone, records[0].serial, current, 1);
    forall s: set<text>
      ensures Apply(NetDelta(diffs, zone, current, records[0].serial), s) == Replay(diffs, zone, s)
    {
      NetIsReplay(diffs, zone, s);
    }
  }

  /** Conversely every chain to a newer target is accepted. */
  lemma ChainsAccepted(records: seq<RR>, zoneText: text, current: u32, diffs: seq<Diff>)
    requires var zone := ToLower(Fqdn(zoneText));
             && |records| > 1 && ZoneSoa(records[0], zone) && SerialGreater(records[0].serial, current)
             && IsChain(records[1..], zone, current, records[0].serial, diffs)
    ensures ParseTransfer(records, zoneText, current)
         == Ok(Some(NetDelta(diffs, ToLower(Fqdn(zoneText)), current, records[0].serial)))
  {
    hide PolicyOwner, OwnersOk, Owners, Changes, ParseOne;
    var zone := ToLower(Fqdn(zoneText));
    ChainParses(records, zone, records[0].serial, current, 1, diffs);
    assert Leads(records[1..], zone, diffs[0]);
  }

  /** From-serial of the k-th sequence, or the target behind the last one. */
  function SerialAt(diffs: seq<Diff>, target: u32, k: nat): u32
    requires k <= |diffs|
  {
    if k == |diffs| then target else diffs[k].fromSerial
  }

  /** Along an accepted chain the distance to the target strictly falls and starts below 2^31. */
  lemma {:induction false} ChainNearer(rs: seq<RR>, zone: text, from: u32, target: u32, diffs: seq<Diff>, j: nat,
                                       k: nat)
    requires IsChain(rs, zone, from, target, diffs) && SerialGreater(target, from)
    requires j < k <= |diffs|
    ensures var atJ, atK := SerialAt(diffs, target, j), SerialAt(diffs, target, k);
            Distance(atK, target) + (k - j) <= Distance(atJ, target) < HALF
  {
    hide Leads, ZoneSoa;
    var d := diffs[0];
    LeadsSpan(rs, zone, d);
    StepNearer(from, d.toSerial, target);
    if d.toSerial != target {
      var rest := rs[Span(d)..];
      var next := diffs[1..];
      assert next[0].fromSerial == d.toSerial;
      forall i | 1 <= i <= |diffs| ensures SerialAt(diffs, target, i) == SerialAt(next, target, i - 1) {
      }
      if j > 0 {
        ChainNearer(rest, zone, d.toSerial, target, next, j - 1, k - 1);
      } else if k > 1 {
        ChainNearer(rest, zone, d.toSerial, target, next, 0, k - 1);
      }
    }
  }

  /** Hence all intermediate serials differ and a chain has fewer than 2^31 sequences. */
  lemma ChainSerials(rs: seq<RR>, zone: text, from: u32, target: u32, diffs: seq<Diff>)
    requires IsChain(rs, zone, from, target, diffs) && SerialGreater(target, from)
    ensures |diffs| < HALF
    ensures forall j, k :: 0 <= j < k <= |diffs| ==> SerialAt(diffs, target, j) != SerialAt(diffs, target, k)
  {
    ChainNearer(rs, zone, from, target, diffs, 0, |diffs|);
    forall j, k | 0 <= j < k <= |diffs|
      ensures SerialAt(diffs, target, j) != SerialAt(diffs, target, k)
    {
      ChainNearer(rs, zone, from, target, diffs, j, k);
    }
  }
}
