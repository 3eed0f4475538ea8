/** Serving transfers: the records emitted for a full zone and for a cached delta, and reading them back. */
module RpzServe {
  import opened Basics
  import opened Bytes
  import opened Text
  import opened RpzNames
  import opened RpzRecords
  import opened RpzSerial
  import opened RpzTransfer
  import opened RpzStream
  import opened RpzFile
  import opened Sorting

  /** What the server keeps between transfers: serial, cached deltas, number of domains. */
  datatype State = State(serial: u32, deltas: seq<Delta>, total: nat)

  datatype Request = AskFull | AskSince(serial: u32)

  // ------------------------------------------------------ what is emitted

  function Records(domains: seq<text>, zone: text): (rs: seq<RR>)
    ensures |rs| == |domains|
    ensures forall i :: 0 <= i < |domains| ==> rs[i] == RecordOf(domains[i], zone)
  {
    seq(|domains|, i requires 0 <= i < |domains| => RecordOf(domains[i], zone))
  }

  /** New SOA, old SOA, deletions, new SOA, additions, new SOA. */
  function IxfrRecords(delta: Delta, clientSerial: u32, zone: text): seq<RR> {
    [Soa(zone, delta.toSerial), Soa(zone, clientSerial)] + Records(delta.deleted, zone)
    + [Soa(zone, delta.toSerial)] + Records(delta.added, zone) + [Soa(zone, delta.toSerial)]
  }

  /** The record of one line of the raw file, unless the line is blank or a comment. */
  function LineRecord(line: text, zone: text): seq<RR> {
    var t := TrimSpace(line);
    if t == [] || t[0] == '#' then [] else [Rec(TrimSuffix(ToLower(t), ".") + "." + zone, Cname)]
  }

  function LineRecords(lines: seq<text>, zone: text): seq<RR> {
    if lines == [] then [] else LineRecords(lines[..|lines| - 1], zone) + LineRecord(lines[|lines| - 1], zone)
  }

  function AxfrRecords(serial: u32, lines: seq<text>, zone: text): seq<RR> {
    [Soa(zone, serial)] + LineRecords(lines, zone) + [Soa(zone, serial)]
  }

  /** The latest cached delta from the client's serial to the current one. */
  ghost predicate IsLatest(deltas: seq<Delta>, from: u32, to: u32, i: nat) {
    && i < |deltas| && deltas[i].fromSerial == from && deltas[i].toSerial == to
    && forall j :: i < j < |deltas| ==> !(deltas[j].fromSerial == from && deltas[j].toSerial == to)
  }

  /** The records answering a request from one state and one raw file. */
  ghost predicate Answers(state: State, lines: seq<text>, request: Request, zone: text, records: seq<RR>) {
    match request
    case AskFull => records == AxfrRecords(state.serial, lines, zone)
    case AskSince(s) =>
      if s != 0 && !SerialGreater(state.serial, s) then records == [Soa(zone, state.serial)]
      else if exists i: nat :: IsLatest(state.deltas, s, state.serial, i) then
        exists i: nat :: IsLatest(state.deltas, s, state.serial, i) && records == IxfrRecords(state.deltas[i], s, zone)
      else records == AxfrRecords(state.serial, lines, zone)
  }

  lemma FlattenAppend(envs: seq<Envelope>, rrs: seq<RR>)
    ensures Flatten(envs + [Batch(rrs)]) == Flatten(envs) + rrs
    ensures !HasFault(envs) ==> !HasFault(envs + [Batch(rrs)])
  {
    assert (envs + [Batch(rrs)])[..|envs|] == envs;
  }

  /** One record, full envelopes of 200, what is left, and one record. */
  ghost predicate Chunked(envs: seq<Envelope>) {
    && |envs| >= 2 && OfSize(envs[0], 1, 1) && OfSize(envs[|envs| - 1], 1, 1)
    && (forall i :: 0 < i < |envs| - 2 ==> OfSize(envs[i], 200, 200))
    && (|envs| > 2 ==> OfSize(envs[|envs| - 2], 1, 200))
  }

  predicate OfSize(e: Envelope, lo: nat, hi: nat) {
    e.Batch? && lo <= |e.rrs| <= hi
  }

  method HandleAxfr(state: State, lines: seq<text>, zone: text) returns (envs: seq<Envelope>)
    ensures !HasFault(envs) && Flatten(envs) == AxfrRecords(state.serial, lines, zone)
    ensures Chunked(envs)
  {
    hide Flatten, LineRecord;
    var soa := Soa(zone, state.serial);
    FlattenAppend([], [soa]);
    FlattenEmpty();
    envs := [] + [Batch([soa])];
    var chunk: seq<RR> := [];
    for i := 0 to |lines|
      invariant !HasFault(envs) && Flatten(envs) + chunk == [soa] + LineRecords(lines[..i], zone)
      invariant |chunk| < 200
      invariant |envs| >= 1 && OfSize(envs[0], 1, 1)
      invariant forall j :: 0 < j < |envs| ==> OfSize(envs[j], 200, 200)
    {
      assert lines[..i + 1][..i] == lines[..i];
      ghost var before := Flatten(envs) + chunk;
      chunk := chunk + LineRecord(lines[i], zone);
      LineRecordShort(lines[i], zone);
      assert Flatten(envs) + chunk == before + LineRecord(lines[i], zone);
      if |chunk| >= 200 {
        FlattenAppend(envs, chunk);
        envs, chunk := envs + [Batch(chunk)], [];
      }
    }
    assert lines[..|lines|] == lines;
    if |chunk| > 0 {
      FlattenAppend(envs, chunk);
      envs := envs + [Batch(chunk)];
    }
    FlattenAppend(envs, [soa]);
    envs := envs + [Batch([soa])];
  }

  lemma FlattenEmpty()
    ensures Flatten([]) == [] && !HasFault([])
  {
  }

  lemma LineRecordShort(line: text, zone: text)
    ensures |LineRecord(line, zone)| <= 1
  {
  }

  method HandleIxfr(state: State, lines: seq<text>, clientSerial: u32, zone: text) returns (envs: seq<Envelope>)
    ensures !HasFault(envs) && Answers(state, lines, AskSince(clientSerial), zone, Flatten(envs))
  {
    hide Flatten, IxfrRecords, AxfrRecords, RecordOf;
    var currentSerial := state.serial;
    var found, i := FindDelta(state.deltas, clientSerial, currentSerial);
    if clientSerial != 0 && !SerialGreater(currentSerial, clientSerial) {
      FlattenAppend([], [Soa(zone, currentSerial)]);
      FlattenEmpty();
      envs := [] + [Batch([Soa(zone, currentSerial)])];
      return;
    }
    if !found {
      envs := HandleAxfr(state, lines, zone);
      return;
    }
    envs := EmitDelta(state.deltas[i], clientSerial, zone);
  }

  /** Backward search through the cache. */
  method FindDelta(deltas: seq<Delta>, from: u32, to: u32) returns (found: bool, i: nat)
    ensures found ==> IsLatest(deltas, from, to, i)
    ensures !found ==> !exists j: nat :: IsLatest(deltas, from, to, j)
  {
    i := |deltas|;
    while i > 0
      invariant i <= |deltas|
      invariant forall j :: i <= j < |deltas| ==> !(deltas[j].fromSerial == from && deltas[j].toSerial == to)
    {
      i := i - 1;
      if deltas[i].fromSerial == from && deltas[i].toSerial == to {
        return true, i;
      }
    }
    found := false;
  }

  method EmitDelta(delta: Delta, clientSerial: u32, zone: text) returns (envs: seq<Envelope>)
    ensures !HasFault(envs) && Flatten(envs) == IxfrRecords(delta, clientSerial, zone)
  {
    hide Flatten, RecordOf;
    var newSoa, oldSoa := Soa(zone, delta.toSerial), Soa(zone, clientSerial);
    FlattenAppend([], [newSoa, oldSoa]);
    FlattenEmpty();
    envs := [] + [Batch([newSoa, oldSoa])];
    envs := EmitSection(envs, delta.deleted, zone);
    FlattenAppend(envs, [newSoa]);
    envs := envs + [Batch([newSoa])];
    envs := EmitSection(envs, delta.added, zone);
    FlattenAppend(envs, [newSoa]);
    envs := envs + [Batch([newSoa])];
  }

  /** One envelope for every domain of a section. */
  method EmitSection(before: seq<Envelope>, domains: seq<text>, zone: text) returns (envs: seq<Envelope>)
    requires !HasFault(before)
    ensures !HasFault(envs) && Flatten(envs) == Flatten(before) + Records(domains, zone)
  {
    hide Flatten, RecordOf;
    envs := before;
    for i := 0 to |domains|
      invariant !HasFault(envs) && Flatten(envs) == Flatten(before) + Records(domains[..i], zone)
    {
      FlattenAppend(envs, [RecordOf(domains[i], zone)]);
      assert Records(domains[..i + 1], zone) == Records(domains[..i], zone) + [RecordOf(domains[i], zone)];
      envs := envs + [Batch([RecordOf(domains[i], zone)])];
    }
    assert domains[..|domains|] == domains;
  }

  // ------------------------------------------------------- reading it back

  lemma ZoneText(zone: text)
    requires ZoneOk(zone)
    ensures ToLower(Fqdn(zone)) == zone
  {
    AbsoluteName(zone);
  }

  lemma {:induction false} OwnersOfRecords(domains: seq<text>, zone: text)
    requires AllDomains(domains) && ZoneOk(zone) && zone != "."
    ensures OwnersOk(Records(domains, zone), zone) && Owners(Records(domains, zone), zone) == Elems(domains)
  {
    hide DomainOk, PolicyOwner, RecordOf, IsName, ToLower;
    forall i | 0 <= i < |domains| ensures PolicyOwner(Records(domains, zone)[i], zone) == Domain(domains[i]) {
      RecordOfRoundTrip(domains[i], zone);
    }
    if domains != [] {
      var n := |domains| - 1;
      OwnersOfRecords(domains[..n], zone);
      assert Records(domains, zone)[..n] == Records(domains[..n], zone);
      assert domains == domains[..n] + [domains[n]];
    }
  }

  lemma RecordsNoSoa(domains: seq<text>, zone: text)
    ensures NoSoa(Records(domains, zone))
  {
  }

  /** A delta the server can cache: net form over domains, moving forward. */
  ghost predicate Servable(delta: Delta) {
    && !delta.full && delta.staged.None? && NetForm(delta)
    && AllDomains(delta.added) && AllDomains(delta.deleted)
    && SerialGreater(delta.toSerial, delta.fromSerial)
  }

  /** Parsing the sequence emitted for a delta gives exactly that delta back, empty parts included. */
  lemma IxfrRoundTrip(delta: Delta, zone: text)
    requires Servable(delta) && ZoneOk(zone) && zone != "."
    ensures ParseTransfer(IxfrRecords(delta, delta.fromSerial, zone), zone, delta.fromSerial) == Ok(Some(delta))
  {
    hide DomainOk, PolicyOwner, RecordOf, IsName, ToLower, Owners, OwnersOk, SerialGreater, Records, ParseTransfer;
    ZoneText(zone);
    var d := Diff(delta.fromSerial, Records(delta.deleted, zone), delta.toSerial, Records(delta.added, zone));
    IxfrIsChain(delta, d, zone);
    ChainsAccepted(IxfrRecords(delta, delta.fromSerial, zone), zone, delta.fromSerial, [d]);
    OwnersOfRecords(delta.deleted, zone);
    OwnersOfRecords(delta.added, zone);
    OneChange(d, zone);
    SortedIs(delta.added);
    SortedIs(delta.deleted);
    assert Elems(delta.deleted) - Elems(delta.added) == Elems(delta.deleted);
  }

  lemma OneChange(d: Diff, zone: text)
    ensures Marked(Changes([d], zone), true) == Owners(d.adds, zone)
    ensures Marked(Changes([d], zone), false) == Owners(d.dels, zone) - Owners(d.adds, zone)
  {
    hide Owners;
    assert [d][..0] == [];
    assert Changes([], zone) == map[];
  }

  lemma IxfrIsChain(delta: Delta, d: Diff, zone: text)
    requires Servable(delta) && ZoneOk(zone) && zone != "."
    requires d == Diff(delta.fromSerial, Records(delta.deleted, zone), delta.toSerial, Records(delta.added, zone))
    ensures IsChain(IxfrRecords(delta, delta.fromSerial, zone)[1..], zone, delta.fromSerial, delta.toSerial, [d])
  {
    hide DomainOk, PolicyOwner, RecordOf, IsName, Owners, OwnersOk, SerialGreater, Records;
    OwnersOfRecords(delta.deleted, zone);
    OwnersOfRecords(delta.added, zone);
    RecordsNoSoa(delta.deleted, zone);
    RecordsNoSoa(delta.added, zone);
    var rs := IxfrRecords(delta, delta.fromSerial, zone)[1..];
    var soa, m := [Soa(zone, delta.toSerial)], 1 + |d.dels|;
    assert rs == [Soa(zone, delta.fromSerial)] + d.dels + soa + d.adds + soa;
    assert rs[1..m] == d.dels;
    assert rs[m] == soa[0];
    assert rs[m + 1..m + 1 + |d.adds|] == d.adds;
    assert Leads(rs, zone, d);
    assert rs[Span(d)..] == soa;
  }

  /** The records served for a file of domains are those of the domains it shows. */
  lemma {:induction false} ShownRecords(lines: seq<text>, zone: text)
    requires AllDomains(lines)
    ensures LineRecords(lines, zone) == Records(WithoutHash(lines), zone)
  {
    hide DomainOk, RecordOf, LineRecord;
    if lines != [] {
      var n := |lines| - 1;
      ShownRecords(lines[..n], zone);
      DomainLineRecord(lines[n], zone);
      DomainNotEmpty(lines[n]);
    }
  }

  lemma DomainLineRecord(d: text, zone: text)
    requires DomainOk(d)
    ensures LineRecord(d, zone) == if d != [] && d[0] == '#' then [] else [RecordOf(d, zone)]
  {
    hide TrimSpace, IsName;
    DomainFacts(d);
    NoTrim(d);
  }

  lemma {:induction false} StreamRecords(domains: seq<text>, zone: text, serial: u32)
    requires AllDomains(domains) && ZoneOk(zone) && zone != "."
    ensures StreamAll(Records(domains, zone), zone, serial) == Ok(Stream(false, domains))
  {
    hide DomainOk, PolicyOwner, IsName, ToLower;
    if domains != [] {
      var n := |domains| - 1;
      StreamRecords(domains[..n], zone, serial);
      assert Records(domains, zone)[..n] == Records(domains[..n], zone);
      RecordOfRoundTrip(domains[n], zone);
      assert domains == domains[..n] + [domains[n]];
    }
  }

  /** Streaming in a served full zone stages exactly the domains of the file it was served from. */
  lemma AxfrRoundTrip(serial: u32, lines: seq<text>, zone: text, current: u32)
    requires AllDomains(lines) && ZoneOk(zone) && zone != "."
    ensures Interpret(AxfrRecords(serial, lines, zone), zone, current)
         == Ok(Some(Delta(current, serial, true, [], [], Some(Domains(lines)))))
    ensures PlainLines(Domains(lines)) && (PlainLines(lines) ==> Domains(lines) == lines)
  {
    hide DomainOk, RecordOf, StreamAll, ParseTransfer, IsName, LineRecords, Domains, ReadLine, PlainDomain;
    ZoneText(zone);
    DomainFile(lines);
    WithoutHashDomains(lines);
    var shown := Domains(lines);
    ShownRecords(lines, zone);
    StreamRecords(shown, zone, serial);
    var rs, body := AxfrRecords(serial, lines, zone), Records(shown, zone);
    assert rs[1..] == body + [Soa(zone, serial)];
    StreamNext(body, Soa(zone, serial), zone, serial);
    assert |shown| > 0 ==> rs[1] == body[0];
    RecordsNoSoa(shown, zone);
    assert IsIxfrResponse(rs) == false;
    if PlainLines(lines) {
      PlainFile(lines);
    }
  }
}
