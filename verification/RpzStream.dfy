/** Receiving a transfer envelope by envelope: full zones are streamed, increments are buffered. */
module RpzStream {
  import opened Basics
  import opened Bytes
  import opened Text
  import opened RpzNames
  import opened RpzRecords
  import opened RpzSerial
  import opened RpzTransfer
  import opened Sorting

  /** What the transfer channel delivers: a batch of records or a stream error. */
  datatype Envelope = Fault | Batch(rrs: seq<RR>)

  function Flatten(envs: seq<Envelope>): seq<RR> {
    if envs == [] then []
    else Flatten(envs[..|envs| - 1]) + if envs[|envs| - 1].Batch? then envs[|envs| - 1].rrs else []
  }

  ghost predicate HasFault(envs: seq<Envelope>) {
    exists i :: 0 <= i < |envs| && envs[i].Fault?
  }

  /** The first two records tell an incremental response from a full one. */
  predicate IsIxfrResponse(head: seq<RR>) {
    |head| >= 2 && head[0].Soa? && head[1].Soa? && head[1].serial != head[0].serial
  }

  // ----------------------------------------------------------- streaming

  datatype Stream = Stream(gotLast: bool, lines: seq<text>)

  /** What one streamed record does. */
  function StreamOne(st: Stream, rr: RR, zone: text, firstSerial: u32): Result<Stream, TransferError> {
    if rr.Soa? then
      if ToLower(rr.owner) != zone then Err(SoaMismatch)
      else if rr.serial != firstSerial then Err(NotClosed)
      else Ok(Stream(true, st.lines))
    else if st.gotLast then Err(AfterClosing)
    else
      match PolicyOwner(rr, zone)
      case BadOwner => Err(BadPolicyOwner)
      case NoPolicy => Ok(st)
      case Domain(d) => Ok(Stream(false, st.lines + [d]))
  }

  function StreamAll(rs: seq<RR>, zone: text, firstSerial: u32): Result<Stream, TransferError> {
    if rs == [] then Ok(Stream(false, []))
    else
      match StreamAll(rs[..|rs| - 1], zone, firstSerial)
      case Err(e) => Err(e)
      case Ok(st) => StreamOne(st, rs[|rs| - 1], zone, firstSerial)
  }

  /** The full-transfer delta of all records, the opening SOA included. */
  function StreamAxfr(records: seq<RR>, zone: text, current: u32): Result<Delta, TransferError>
    requires records != [] && records[0].Soa?
  {
    match StreamAll(records[1..], zone, records[0].serial)
    case Err(e) => Err(e)
    case Ok(st) =>
      if !st.gotLast then Err(NotClosed)
      else Ok(Delta(current, records[0].serial, true, [], [], Some(st.lines)))
  }

  lemma {:induction false} StreamErrSticks(a: seq<RR>, b: seq<RR>, zone: text, firstSerial: u32)
    requires StreamAll(a, zone, firstSerial).Err?
    ensures StreamAll(a + b, zone, firstSerial).Err?
  {
    hide StreamOne;
    if b == [] {
      assert a + b == a;
    } else {
      StreamErrSticks(a, b[..|b| - 1], zone, firstSerial);
      assert (a + b)[..|a + b| - 1] == a + b[..|b| - 1];
    }
  }

  lemma StreamNext(a: seq<RR>, rr: RR, zone: text, firstSerial: u32)
    requires StreamAll(a, zone, firstSerial).Ok?
    ensures StreamAll(a + [rr], zone, firstSerial)
         == StreamOne(StreamAll(a, zone, firstSerial).value, rr, zone, firstSerial)
  {
    hide StreamOne;
    assert (a + [rr])[..|a|] == a;
  }

  /** Streams one batch into the staging file, counting records against the limit. */
  method StreamBatch(rrs: seq<RR>, zone: text, firstSerial: u32, limit: nat, st: Stream, total: nat,
                     ghost seen: seq<RR>)
      returns (r: Result<Stream, TransferError>)
    requires StreamAll(seen, zone, firstSerial) == Ok(st) && total == |seen| <= limit
    ensures r.Ok? <==> |seen + rrs| <= limit && StreamAll(seen + rrs, zone, firstSerial).Ok?
    ensures r.Ok? ==> r == StreamAll(seen + rrs, zone, firstSerial)
  {
    hide StreamOne, StreamAll;
    var now := st;
    assert seen + rrs[..0] == seen;
    for i := 0 to |rrs|
      invariant StreamAll(seen + rrs[..i], zone, firstSerial) == Ok(now)
      invariant |seen| + i <= limit
    {
      if total + i + 1 > limit {
        return Err(TooManyRecords);
      }
      StreamNext(seen + rrs[..i], rrs[i], zone, firstSerial);
      assert seen + rrs[..i] + [rrs[i]] == seen + rrs[..i + 1];
      var next := StreamOne(now, rrs[i], zone, firstSerial);
      if next.Err? {
        StreamErrSticks(seen + rrs[..i + 1], rrs[i + 1..], zone, firstSerial);
        assert seen + rrs[..i + 1] + rrs[i + 1..] == seen + rrs;
        return next;
      }
      now := next.value;
    }
    assert rrs[..|rrs|] == rrs;
    r := Ok(now);
  }

  lemma FlattenNext(envs: seq<Envelope>, i: nat)
    requires i < |envs| && envs[i].Batch?
    ensures Flatten(envs[..i + 1]) == Flatten(envs[..i]) + envs[i].rrs
  {
    assert envs[..i + 1][..i] == envs[..i];
  }

  lemma {:induction false} FlattenSplit(envs: seq<Envelope>, i: nat)
    requires i <= |envs|
    ensures Flatten(envs) == Flatten(envs[..i]) + Flatten(envs[i..])
  {
    if i < |envs| {
      var n := |envs| - 1;
      FlattenSplit(envs[..n], i);
      assert envs[..n][..i] == envs[..i];
      assert envs[..n][i..] == envs[i..][..n - i];
    } else {
      assert envs[..i] == envs;
    }
  }

  /** Streams a full transfer: the buffered head behind its opening SOA, then every further envelope. */
  method StreamAxfrFromEnvelopes(head: seq<RR>, envs: seq<Envelope>, taken: nat, zone: text, current: u32, limit: nat)
      returns (r: Result<Delta, TransferError>)
    requires taken <= |envs| && head == Flatten(envs[..taken]) && head != [] && head[0].Soa?
    requires !HasFault(envs[..taken]) && Flatten(envs) != [] && Flatten(envs)[0] == head[0]
    ensures r.Ok? <==> !HasFault(envs) && |Flatten(envs)| - 1 <= limit && StreamAxfr(Flatten(envs), zone, current).Ok?
    ensures r.Ok? ==> r == StreamAxfr(Flatten(envs), zone, current)
  {
    hide StreamOne, StreamAll, Flatten;
    var first := head[0].serial;
    StreamNothing(zone, first);
    var step := StreamBatch(head[1..], zone, first, limit, Stream(false, []), 0, []);
    assert [] + head[1..] == head[1..];
    FlattenSplit(envs, taken);
    if step.Err? {
      StreamFails(head, envs, taken, zone, first, limit);
      return Err(step.error);
    }
    var st, total := step.value, |head| - 1;
    for i := taken to |envs|
      invariant !HasFault(envs[..i])
      invariant Flatten(envs[..i]) != [] && Flatten(envs[..i])[0] == head[0]
      invariant total == |Flatten(envs[..i])| - 1 <= limit
      invariant StreamAll(Flatten(envs[..i])[1..], zone, first) == Ok(st)
    {
      if envs[i].Fault? {
        return Err(StreamFault);
      }
      ghost var sofar := Flatten(envs[..i]);
      FlattenNext(envs, i);
      assert sofar[1..] + envs[i].rrs == (sofar + envs[i].rrs)[1..];
      step := StreamBatch(envs[i].rrs, zone, first, limit, st, total, sofar[1..]);
      if step.Err? {
        FlattenSplit(envs, i + 1);
        StreamFails(Flatten(envs[..i + 1]), envs, i + 1, zone, first, limit);
        return Err(step.error);
      }
      NoFaultNext(envs, i);
      st, total := step.value, total + |envs[i].rrs|;
    }
    assert envs[..|envs|] == envs;
    if !st.gotLast {
      return Err(NotClosed);
    }
    r := Ok(Delta(current, first, true, [], [], Some(st.lines)));
  }

  lemma StreamNothing(zone: text, first: u32)
    ensures StreamAll([], zone, first) == Ok(Stream(false, []))
  {
  }

  lemma NoFaultNext(envs: seq<Envelope>, i: nat)
    requires i < |envs| && !HasFault(envs[..i]) && envs[i].Batch?
    ensures !HasFault(envs[..i + 1])
  {
    var front, next := envs[..i], envs[..i + 1];
    forall j | 0 <= j <= i ensures next[j].Batch? {
      assert j < i ==> front[j].Batch?;
    }
  }

  /** A failure on the records so far is a failure on all of them. */
  lemma StreamFails(sofar: seq<RR>, envs: seq<Envelope>, i: nat, zone: text, first: u32, limit: nat)
    requires i <= |envs| && sofar == Flatten(envs[..i]) && sofar != []
    requires Flatten(envs) == sofar + Flatten(envs[i..])
    requires |sofar[1..]| > limit || StreamAll(sofar[1..], zone, first).Err?
    ensures |Flatten(envs)| - 1 > limit || StreamAll(Flatten(envs)[1..], zone, first).Err?
  {
    hide StreamAll, Flatten;
    var rest := Flatten(envs[i..]);
    assert (sofar + rest)[1..] == sofar[1..] + rest;
    if StreamAll(sofar[1..], zone, first).Err? {
      StreamErrSticks(sofar[1..], rest, zone, first);
    }
  }

  // ----------------------------------------------------------- receiving

  /** How many envelopes are read, from the i-th on, until two records are there. */
  function HeadLen(envs: seq<Envelope>, i: nat): (n: nat)
    requires i <= |envs|
    ensures i <= n <= |envs|
    decreases |envs| - i
  {
    if |Flatten(envs[..i])| >= 2 || i == |envs| then i else HeadLen(envs, i + 1)
  }

  /** The meaning of all records of a response, however they were delivered. */
  ghost function Interpret(records: seq<RR>, zoneText: text, current: u32): Result<Option<Delta>, TransferError> {
    var zone := ToLower(Fqdn(zoneText));
    if records == [] then Err(EmptyTransfer)
    else if !ZoneSoa(records[0], zone) then Err(NoOpeningSoa)
    else if |records| == 1 then (if current == records[0].serial then Ok(None) else Err(CutAfterOpening))
    else if IsIxfrResponse(records) then ParseTransfer(records, zoneText, current)
    else
      match StreamAxfr(records, zone, current)
      case Err(e) => Err(e)
      case Ok(d) => Ok(Some(d))
  }

  /** The target must be the serial announced by the SOA query, unless that was 0. */
  ghost function Announced(r: Result<Option<Delta>, TransferError>, upstreamSerial: u32)
    : Result<Option<Delta>, TransferError>
  {
    if r.Ok? && r.value.Some? && upstreamSerial != 0 && r.value.value.toSerial != upstreamSerial
    then Err(SerialMismatch) else r
  }

  /**
   * The record limit. A full transfer counts every record behind the opening SOA; an incremental one is
   * only measured when an envelope arrives behind the head.
   */
  ghost predicate OverLimit(envs: seq<Envelope>, limit: nat) {
    var all := Flatten(envs);
    if IsIxfrResponse(all) then HeadLen(envs, 0) < |envs| && |all| > limit else |all| >= 2 && |all| - 1 > limit
  }

  ghost function Received(envs: seq<Envelope>, zoneText: text, current: u32, upstreamSerial: u32, limit: nat)
    : Result<Option<Delta>, TransferError>
  {
    if HasFault(envs) then Err(StreamFault)
    else if OverLimit(envs, limit) then Err(TooManyRecords)
    else Announced(Interpret(Flatten(envs), zoneText, current), upstreamSerial)
  }

  /** The target of an accepted response is the serial of its opening SOA. */
  lemma TargetIsOpening(records: seq<RR>, zoneText: text, current: u32)
    requires Interpret(records, zoneText, current).Ok? && Interpret(records, zoneText, current).value.Some?
    ensures records != [] && records[0].Soa?
    ensures Interpret(records, zoneText, current).value.value.toSerial == records[0].serial
  {
    hide StreamAll, ParseChain, ToLower, Fqdn, PolicyOwner;
  }

  /**
   * An accepted response leads to the announced serial if and only if that is not 0, or the opening SOA
   * has serial 0 as well.
   */
  lemma TargetAnnounced(envs: seq<Envelope>, zoneText: text, current: u32, upstreamSerial: u32, limit: nat)
    requires var r := Received(envs, zoneText, current, upstreamSerial, limit); r.Ok? && r.value.Some?
    ensures Flatten(envs) != [] && Flatten(envs)[0].Soa?
    ensures var d := Received(envs, zoneText, current, upstreamSerial, limit).value.value;
            d.toSerial == upstreamSerial <==> (upstreamSerial != 0 || Flatten(envs)[0].serial == 0)
  {
    hide Interpret, Flatten, OverLimit;
    TargetIsOpening(Flatten(envs), zoneText, current);
  }

  /** Equal deltas, or both failed: which of several errors is reported first does not matter. */
  ghost predicate SameOutcome<T>(a: Result<T, TransferError>, b: Result<T, TransferError>) {
    a.Ok? == b.Ok? && (a.Ok? ==> a == b)
  }

  method SyncIxfr(envs: seq<Envelope>, zoneText: text, current: u32, upstreamSerial: u32, maxRecords: int)
      returns (r: Result<Option<Delta>, TransferError>)
    ensures var limit := if maxRecords <= 0 then 10_000_000 else maxRecords;
            SameOutcome(r, Received(envs, zoneText, current, upstreamSerial, limit))
  {
    hide StreamAll, Flatten, ParseTransfer, ToLower, Fqdn;
    var limit := if maxRecords <= 0 then 10_000_000 else maxRecords;
    var zone := ToLower(Fqdn(zoneText));
    var head, taken, fault := ReadHead(envs);
    if fault {
      return Err(StreamFault);
    }
    FlattenSplit(envs, taken);
    HeadDecides(envs, head, taken);
    if head == [] {
      return Err(EmptyTransfer);
    }
    if !ZoneSoa(head[0], zone) {
      return Err(NoOpeningSoa);
    }
    if |head| == 1 {
      return if current == head[0].serial then Ok(None) else Err(CutAfterOpening);
    }
    if IsIxfrResponse(head) {
      var records := BufferRest(envs, head, taken, limit);
      if records.Err? {
        return Err(records.error);
      }
      r := ParseTransferRecords(records.value, zoneText, current);
      if r.Err? {
        return;
      }
    } else {
      var full := StreamAxfrFromEnvelopes(head, envs, taken, zone, current, limit);
      if full.Err? {
        return Err(full.error);
      }
      r := Ok(Some(full.value));
    }
    if r.value.Some? && upstreamSerial != 0 && r.value.value.toSerial != upstreamSerial {
      return Err(SerialMismatch);
    }
  }

  method ReadHead(envs: seq<Envelope>) returns (head: seq<RR>, taken: nat, fault: bool)
    ensures fault ==> HasFault(envs)
    ensures taken <= |envs|
    ensures !fault ==> !HasFault(envs[..taken]) && head == Flatten(envs[..taken]) && taken == HeadLen(envs, 0)
    ensures !fault ==> |head| >= 2 || taken == |envs|
  {
    hide Flatten;
    head, taken, fault := [], 0, false;
    FlattenNone(envs);
    while |head| < 2 && taken < |envs|
      invariant taken <= |envs| && head == Flatten(envs[..taken]) && !HasFault(envs[..taken])
      invariant HeadLen(envs, 0) == HeadLen(envs, taken)
      decreases |envs| - taken
    {
      if envs[taken].Fault? {
        fault := true;
        return;
      }
      FlattenNext(envs, taken);
      NoFaultNext(envs, taken);
      head := head + envs[taken].rrs;
      taken := taken + 1;
    }
  }

  lemma FlattenNone(envs: seq<Envelope>)
    ensures Flatten(envs[..0]) == []
  {
  }

  /** Two records decide for all of them; fewer are all of them. */
  lemma HeadDecides(envs: seq<Envelope>, head: seq<RR>, taken: nat)
    requires taken <= |envs| && head == Flatten(envs[..taken])
    requires Flatten(envs) == head + Flatten(envs[taken..])
    requires |head| >= 2 || taken == |envs|
    ensures |head| >= 2 ==> |Flatten(envs)| >= 2 && IsIxfrResponse(Flatten(envs)) == IsIxfrResponse(head)
    ensures |head| < 2 ==> Flatten(envs) == head && !HasFault(envs[..taken]) == !HasFault(envs)
    ensures head != [] ==> Flatten(envs)[0] == head[0]
  {
    assert taken == |envs| ==> envs[..taken] == envs;
  }

  method BufferRest(envs: seq<Envelope>, head: seq<RR>, taken: nat, limit: nat)
      returns (r: Result<seq<RR>, TransferError>)
    requires taken <= |envs| && head == Flatten(envs[..taken]) && !HasFault(envs[..taken])
    ensures r.Ok? <==> !HasFault(envs) && (taken < |envs| ==> |Flatten(envs)| <= limit)
    ensures r.Ok? ==> r.value == Flatten(envs)
  {
    hide Flatten;
    var records := head;
    for i := taken to |envs|
      invariant records == Flatten(envs[..i]) && !HasFault(envs[..i])
      invariant i > taken ==> |records| <= limit
    {
      if envs[i].Fault? {
        return Err(StreamFault);
      }
      FlattenNext(envs, i);
      if |records| + |envs[i].rrs| > limit {
        FlattenSplit(envs, i + 1);
        return Err(TooManyRecords);
      }
      NoFaultNext(envs, i);
      records := records + envs[i].rrs;
    }
    assert envs[..|envs|] == envs;
    r := Ok(records);
  }

  // ---------------------------------------------------------- main results

  /** Within the limit, or for a full transfer, only the concatenated records matter, not their split. */
  lemma SplitIndependent(a: seq<Envelope>, b: seq<Envelope>, zoneText: text, current: u32, upstreamSerial: u32,
                         limit: nat)
    requires !HasFault(a) && !HasFault(b) && Flatten(a) == Flatten(b)
    requires |Flatten(a)| <= limit || !IsIxfrResponse(Flatten(a))
    ensures Received(a, zoneText, current, upstreamSerial, limit) ==
            Received(b, zoneText, current, upstreamSerial, limit)
  {
    hide Flatten, Interpret;
  }

  /** A fault-free split of these records into envelopes. */
  ghost predicate Splits(rs: seq<RR>, envs: seq<Envelope>) {
    !HasFault(envs) && Flatten(envs) == rs
  }

  /** All splits of these records have one outcome. */
  ghost predicate OneOutcome(rs: seq<RR>, zoneText: text, current: u32, upstreamSerial: u32, limit: nat) {
    forall a, b :: Splits(rs, a) && Splits(rs, b) ==>
      SameOutcome(Received(a, zoneText, current, upstreamSerial, limit),
                  Received(b, zoneText, current, upstreamSerial, limit))
  }

  lemma OneEnvelope(rs: seq<RR>)
    requires |rs| >= 2
    ensures Splits(rs, [Batch(rs)]) && HeadLen([Batch(rs)], 0) == 1
  {
    var envs := [Batch(rs)];
    assert envs[..0] == [] && envs[..1] == envs;
    assert HeadLen(envs, 1) == 1;
  }

  lemma TwoEnvelopes(rs: seq<RR>)
    requires |rs| >= 2
    ensures Splits(rs, [Batch(rs[..2]), Batch(rs[2..])]) && HeadLen([Batch(rs[..2]), Batch(rs[2..])], 0) == 1
  {
    var envs := [Batch(rs[..2]), Batch(rs[2..])];
    assert envs[..0] == [] && envs[..1] == [Batch(rs[..2])];
    assert Flatten(envs[..0]) == [] && Flatten(envs[..1]) == rs[..2];
    assert Flatten(envs) == rs[..2] + rs[2..] == rs;
    assert HeadLen(envs, 1) == 1;
  }

  /**
   * The outcome of a response is independent of its split into envelopes if and only if it is no
   * increment, or stays within the limit, or is refused anyway: a single envelope is never measured.
   */
  lemma SplitMatters(rs: seq<RR>, zoneText: text, current: u32, upstreamSerial: u32, limit: nat)
    ensures OneOutcome(rs, zoneText, current, upstreamSerial, limit) <==>
              || !IsIxfrResponse(rs) || |rs| <= limit
              || Announced(Interpret(rs, zoneText, current), upstreamSerial).Err?
  {
    hide Flatten, HeadLen, HasFault, Interpret, Announced;
    if !IsIxfrResponse(rs) || |rs| <= limit {
      forall a, b | Splits(rs, a) && Splits(rs, b)
        ensures Received(a, zoneText, current, upstreamSerial, limit) ==
                Received(b, zoneText, current, upstreamSerial, limit)
      {
        SplitIndependent(a, b, zoneText, current, upstreamSerial, limit);
      }
    } else {
      OneEnvelope(rs);
      TwoEnvelopes(rs);
      var a, b := [Batch(rs)], [Batch(rs[..2]), Batch(rs[2..])];
      assert Received(a, zoneText, current, upstreamSerial, limit)
          == Announced(Interpret(rs, zoneText, current), upstreamSerial);
      assert Received(b, zoneText, current, upstreamSerial, limit).Err?;
    }
  }

  /** Such a response exists: an empty increment of four records under a limit of three. */
  lemma SplitMattersOnce(zone: text)
    requires ToLower(Fqdn(zone)) == zone
    ensures var s := (n: u32) => Soa(zone, n); !OneOutcome([s(2), s(1), s(2), s(2)], zone, 1, 2, 3)
  {
    hide OneOutcome, Interpret;
    var s := (n: u32) => Soa(zone, n);
    EmptyIncrement(zone);
    SplitMatters([s(2), s(1), s(2), s(2)], zone, 1, 2, 3);
  }

  lemma EmptyIncrement(zone: text)
    requires ToLower(Fqdn(zone)) == zone
    ensures var s := (n: u32) => Soa(zone, n);
            var r := Interpret([s(2), s(1), s(2), s(2)], zone, 1);
            r.Ok? && r.value.Some? && r.value.value.toSerial == 2
  {
    hide Fqdn;
    LowerIdempotent(Fqdn(zone));
    var s := (n: u32) => Soa(zone, n);
    var all := [s(2), s(1), s(2), s(2)];
    var d := Diff(1, [], 2, []);
    var rest := all[1..];
    assert rest[1..1] == [] && rest[2..2] == [];
    assert Leads(rest, zone, d);
    assert IsChain(rest, zone, 1, 2, [d]);
    ChainsAccepted(all, zone, 1, [d]);
  }

  // ------------------------------------- streaming against the buffered parser

  /** Records without SOA, then only closing SOAs of the zone with this serial. */
  ghost predicate ClosedAt(rs: seq<RR>, zone: text, serial: u32, c: nat) {
    && c <= |rs| && NoSoa(rs[..c])
    && forall i :: c <= i < |rs| ==> ZoneSoa(rs[i], zone) && rs[i].serial == serial
  }

  /** Streaming accepts exactly well-owned records closed by SOAs, and stages the domains in front of them. */
  lemma {:induction false} StreamShape(rs: seq<RR>, zone: text, serial: u32) returns (c: nat)
    requires StreamAll(rs, zone, serial).Ok?
    ensures ClosedAt(rs, zone, serial, c) && OwnersOk(rs[..c], zone)
    ensures StreamAll(rs, zone, serial).value.gotLast <==> c < |rs|
  {
    hide PolicyOwner, ToLower;
    if rs == [] {
      c := 0;
    } else {
      var n := |rs| - 1;
      c := StreamShape(rs[..n], zone, serial);
      assert rs[..n][..c] == rs[..c];
      if !rs[n].Soa? {
        assert c == n;
        assert rs[..n + 1] == rs[..n] + [rs[n]];
        OwnersOkNext(rs[..n], rs[n], zone);
        c := n + 1;
      }
    }
  }

  lemma OwnersOkNext(front: seq<RR>, rr: RR, zone: text)
    ensures OwnersOk(front + [rr], zone) <==> OwnersOk(front, zone) && PolicyOwner(rr, zone) != BadOwner
  {
    hide PolicyOwner;
    var all := front + [rr];
    assert all[|front|] == rr;
    assert forall i :: 0 <= i < |front| ==> all[i] == front[i];
    if OwnersOk(all, zone) {
      forall i | 0 <= i < |front| ensures PolicyOwner(front[i], zone) != BadOwner {
        assert PolicyOwner(all[i], zone) != BadOwner;
      }
    }
  }

  lemma {:induction false} StreamStages(rs: seq<RR>, zone: text, serial: u32, c: nat)
    requires ClosedAt(rs, zone, serial, c) && OwnersOk(rs[..c], zone)
    ensures StreamAll(rs, zone, serial).Ok?
    ensures StreamAll(rs, zone, serial).value.gotLast <==> c < |rs|
    ensures Elems(StreamAll(rs, zone, serial).value.lines) == Owners(rs[..c], zone)
    decreases |rs|
  {
    hide PolicyOwner, ToLower;
    if rs != [] {
      var n := |rs| - 1;
      if c == |rs| {
        assert rs[..c] == rs && rs[..n] + [rs[n]] == rs;
        OwnersOkNext(rs[..n], rs[n], zone);
        assert rs[..n][..n] == rs[..n];
        StreamStages(rs[..n], zone, serial, n);
        StagesNext(StreamAll(rs[..n], zone, serial).value.lines, rs[..n], rs[n], zone);
      } else {
        assert rs[..n][..c] == rs[..c];
        StreamStages(rs[..n], zone, serial, c);
      }
    }
  }

  lemma StagesNext(lines: seq<text>, front: seq<RR>, rr: RR, zone: text)
    requires Elems(lines) == Owners(front, zone)
    ensures Owners(front + [rr], zone) ==
              Elems(if PolicyOwner(rr, zone).Domain? then lines + [PolicyOwner(rr, zone).name] else lines)
  {
    hide PolicyOwner;
    assert (front + [rr])[..|front|] == front;
  }

  /** A closing SOA names no policy domain. */
  lemma SoaNamesNothing(rr: RR, zoneText: text)
    requires ZoneSoa(rr, ToLower(Fqdn(zoneText)))
    ensures PolicyOwner(rr, ToLower(Fqdn(zoneText))) == NoPolicy
  {
    hide NormalizePolicyDomain;
    var zone := ToLower(Fqdn(zoneText));
    var f := Fqdn(zoneText);
    assert f[|f| - 1] == '.';
    assert zone[|zone| - 1] == '.' && ToLower(rr.owner)[|zone| - 1] == '.';
    assert LowerChar(rr.owner[|zone| - 1]) == '.';
    assert rr.owner[|rr.owner| - 1..] == ".";
  }

  lemma {:induction false} ClosingNamesNothing(rs: seq<RR>, zoneText: text, serial: u32, c: nat)
    requires ClosedAt(rs, ToLower(Fqdn(zoneText)), serial, c)
    ensures Owners(rs, ToLower(Fqdn(zoneText))) == Owners(rs[..c], ToLower(Fqdn(zoneText)))
    ensures OwnersOk(rs, ToLower(Fqdn(zoneText))) <==> OwnersOk(rs[..c], ToLower(Fqdn(zoneText)))
    decreases |rs|
  {
    hide PolicyOwner, Fqdn, ToLower;
    var zone := ToLower(Fqdn(zoneText));
    if c == |rs| {
      assert rs[..c] == rs;
    } else {
      var n := |rs| - 1;
      assert rs[..n][..c] == rs[..c] && rs[..n] + [rs[n]] == rs;
      ClosingNamesNothing(rs[..n], zoneText, serial, c);
      SoaNamesNothing(rs[n], zoneText);
      OwnersOkNext(rs[..n], rs[n], zone);
    }
  }

  /**
   * Streaming refines the buffered parser: of responses whose second record is not an SOA it accepts those
   * the parser accepts in which nothing but matching SOAs follows the first SOA, with the same domains.
   */
  lemma StreamRefinesParser(records: seq<RR>, zoneText: text, current: u32)
    requires |records| >= 2 && ZoneSoa(records[0], ToLower(Fqdn(zoneText))) && !records[1].Soa?
    ensures var zone := ToLower(Fqdn(zoneText));
            var streamed, parsed := StreamAxfr(records, zone, current), ParseTransfer(records, zoneText, current);
            && (streamed.Ok? <==> parsed.Ok? && exists c :: ClosedAt(records[1..], zone, records[0].serial, c))
            && (streamed.Ok? ==>
                  && streamed.value.full && parsed.value.Some? && parsed.value.value.full
                  && streamed.value.toSerial == parsed.value.value.toSerial
                  && streamed.value.staged.Some?
                  && Elems(streamed.value.staged.value) == Elems(parsed.value.value.added))
  {
    hide PolicyOwner, OwnersOk, Owners, ToLower, Fqdn, StreamAll, ClosedAt;
    var zone := ToLower(Fqdn(zoneText));
    var body, serial := records[1..], records[0].serial;
    if StreamAll(body, zone, serial).Ok? && StreamAll(body, zone, serial).value.gotLast {
      var c := StreamShape(body, zone, serial);
      StreamClosed(records, zoneText, current, c);
    }
    if c :| ClosedAt(body, zone, serial, c) && ParseTransfer(records, zoneText, current).Ok? {
      ParsedIsClosed(records, zoneText, c);
      StreamClosed(records, zoneText, current, c);
    }
  }

  /** If the parser finds the closing SOA last, the closing SOAs begin before the end. */
  lemma ParsedIsClosed(records: seq<RR>, zoneText: text, c: nat)
    requires |records| >= 2 && ZoneSoa(records[0], ToLower(Fqdn(zoneText))) && records[|records| - 1].Soa?
    requires ClosedAt(records[1..], ToLower(Fqdn(zoneText)), records[0].serial, c)
    ensures c < |records| - 1
  {
    var body := records[1..];
    assert body[|body| - 1] == records[|records| - 1];
  }

  lemma StreamClosed(records: seq<RR>, zoneText: text, current: u32, c: nat)
    requires |records| >= 2 && ZoneSoa(records[0], ToLower(Fqdn(zoneText))) && !records[1].Soa?
    requires ClosedAt(records[1..], ToLower(Fqdn(zoneText)), records[0].serial, c) && c < |records| - 1
    ensures var zone := ToLower(Fqdn(zoneText));
            var all := StreamAll(records[1..], zone, records[0].serial);
            var parsed := ParseTransfer(records, zoneText, current);
            && (OwnersOk(records[1..][..c], zone) <==> parsed.Ok?)
            && (parsed.Ok? ==>
                  && all.Ok? && all.value.gotLast && parsed.value.Some? && parsed.value.value.full
                  && parsed.value.value.toSerial == records[0].serial
                  && Elems(all.value.lines) == Elems(parsed.value.value.added))
  {
    hide PolicyOwner, OwnersOk, Owners, ToLower, Fqdn, StreamAll;
    var zone := ToLower(Fqdn(zoneText));
    var body, last := records[1..], |records| - 1;
    var inner := records[1..last];
    assert inner == body[..last - 1] && inner[..c] == body[..c];
    assert ClosedAt(inner, zone, records[0].serial, c);
    ClosingNamesNothing(inner, zoneText, records[0].serial, c);
    assert body[last - 1] == records[last];
    if OwnersOk(body[..c], zone) {
      StreamStages(body, zone, records[0].serial, c);
    }
  }

  /**
   * The limit, in records: a full transfer may have one SOA more than the limit; an increment is refused
   * beyond the limit, unless all of it came with the envelopes that held its first two records.
   */
  lemma LimitExactly(envs: seq<Envelope>, zoneText: text, current: u32, upstreamSerial: u32, limit: nat)
    requires !HasFault(envs) && |Flatten(envs)| >= 2
    ensures var all := Flatten(envs);
            var unlimited := Announced(Interpret(all, zoneText, current), upstreamSerial);
            var over := if IsIxfrResponse(all) then |all| > limit && HeadLen(envs, 0) < |envs| else |all| > limit + 1;
            Received(envs, zoneText, current, upstreamSerial, limit) == if over then Err(TooManyRecords) else unlimited
  {
    hide Interpret, Flatten, HeadLen;
  }
}
