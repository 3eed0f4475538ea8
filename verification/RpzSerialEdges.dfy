/** Serials at the edge: an announced serial 0, and upstreams a secondary takes for older. */
module RpzSerialEdges {
  import opened Basics
  import opened Bytes
  import opened Text
  import opened RpzNames
  import opened RpzRecords
  import opened RpzSerial
  import opened RpzTransfer
  import opened RpzStream
  import opened RpzFile
  import opened RpzServe
  import opened RpzApp
  import opened RpzRuns
  import opened RpzHealing
  import opened Sorting

  /**
   * A publication is labelled with the serial its transfer leads to if and only if the announced serial
   * is not 0, or the transfer's own is 0 as well.
   */
  lemma LabelledExactly(files: Files, state: State, zone: text, limit: nat, soa: u32, envs: seq<Envelope>, delta: Delta)
    requires ZoneOk(zone) && limit > 0 && (files.raw.Some? ==> AllDomains(files.raw.value))
    requires Delivers(files, state, zone, limit, soa, envs, delta)
    ensures var (files', state', outcome) := SyncStep(files, state, zone, limit, Some(soa), envs, NoFailure);
            && outcome.Published? && Flatten(envs) != [] && Flatten(envs)[0].Soa?
            && delta.toSerial == Flatten(envs)[0].serial
            && (state'.serial == delta.toSerial <==> soa != 0 || Flatten(envs)[0].serial == 0)
  {
    hide AllDomains, FileSet, SyncStep, ZoneOk, Received, WireTransfer, Flatten, RawSet, Effect, Interpret;
    StepEffect(files, state, zone, limit, soa, envs, NoFailure, delta);
    TargetAnnounced(envs, zone, StartSerial(files, state), soa, limit);
    InterpretedAs(envs, zone, StartSerial(files, state), soa, limit);
    TargetIsOpening(Flatten(envs), zone, StartSerial(files, state));
  }

  lemma InterpretedAs(envs: seq<Envelope>, zone: text, start: u32, soa: u32, limit: nat)
    requires Received(envs, zone, start, soa, limit).Ok?
    ensures Received(envs, zone, start, soa, limit) == Interpret(Flatten(envs), zone, start)
  {
    hide Interpret, Flatten, OverLimit;
  }

  /**
   * A secondary with these files and this state can proceed if and only if the announced serial is newer
   * than the one its transfers start from; otherwise no answer, however often it is polled, changes anything.
   */
  lemma ProceedsExactly(files: Files, state: State, zone: text, maxRecords: int, soa: u32)
    requires ZoneOk(zone) && zone != "."
    ensures SerialGreater(soa, StartSerial(files, state)) <==>
              exists envs, failure ::
                SyncStep(files, state, zone, maxRecords, Some(soa), envs, failure).2.Published?
    ensures !SerialGreater(soa, StartSerial(files, state)) ==>
              forall envs, failure ::
                SyncStep(files, state, zone, maxRecords, Some(soa), envs, failure) == (files, state, Unchanged)
  {
    hide Received, Publish, NextState, ZoneOk;
    var start := StartSerial(files, state);
    if SerialGreater(soa, start) {
      var envs := EmptyZone(zone, start, soa, Limit(maxRecords));
      var delta := Delta(start, soa, true, [], [], Some([]));
      PublishDescribes(files, state, delta, [], soa);
      assert SyncStep(files, state, zone, maxRecords, Some(soa), envs, NoFailure).2.Published?;
    }
  }

  /**
   * A secondary without raw file, whatever serial its state has, proceeds if and only if the announced
   * serial lies strictly between 0 and 2^31: any other upstream is taken for older than serial 0, on every poll.
   */
  lemma FreshProceedsExactly(files: Files, state: State, zone: text, maxRecords: int, soa: u32)
    requires ZoneOk(zone) && zone != "." && files.raw.None?
    ensures 0 < soa < HALF <==>
              exists envs, failure ::
                SyncStep(files, state, zone, maxRecords, Some(soa), envs, failure).2.Published?
    ensures !(0 < soa < HALF) ==>
              forall envs, failure ::
                SyncStep(files, state, zone, maxRecords, Some(soa), envs, failure) == (files, state, Unchanged)
  {
    hide SyncStep, ZoneOk;
    ProceedsExactly(files, state, zone, maxRecords, soa);
  }

  /** A transfer of the empty zone. */
  lemma EmptyZone(zone: text, start: u32, serial: u32, limit: nat) returns (envs: seq<Envelope>)
    requires ZoneOk(zone) && zone != "." && limit > 0
    ensures Received(envs, zone, start, serial, limit) == Ok(Some(Delta(start, serial, true, [], [], Some([]))))
  {
    hide ZoneOk, Interpret, HeadLen;
    var rs := AxfrRecords(serial, [], zone);
    envs := [Batch(rs)];
    OneEnvelope(rs);
    AxfrRoundTrip(serial, [], zone, start);
  }

  /**
   * The announced serial 0 is not compared with the transfer's target, so a publication can be labelled 0
   * while the delta cached for it leads to another serial.
   */
  lemma ZeroSerialMislabels(zone: text)
    requires ZoneOk(zone)
    ensures var s := (n: u32) => Soa(zone, n);
            var files := Files(Some([]), None, None, None);
            var (files', state', outcome) :=
              SyncStep(files, State(0xFFFF_FFFF, [], 0), zone, 10, Some(0),
                       [Batch([s(5), s(0xFFFF_FFFF), s(5), s(5)])], NoFailure);
            && outcome.Published? && state'.serial == 0
            && |state'.deltas| == 1 && state'.deltas[0].toSerial == 5
  {
    hide ZoneOk, SyncStep, NetDelta, Delivers, Effect, FileSet, DomainOk;
    var s := (n: u32) => Soa(zone, n);
    var envs := [Batch([s(5), s(0xFFFF_FFFF), s(5), s(5)])];
    var files, state := Files(Some([]), None, None, None), State(0xFFFF_FFFF, [], 0);
    var delta := NetDelta([Diff(0xFFFF_FFFF, [], 5, [])], zone, 0xFFFF_FFFF, 5);
    ZeroDelivered(zone);
    EmptyNet(zone);
    StepEffect(files, state, zone, 10, 0, envs, NoFailure, delta);
    IncrementCached(files, state, zone, 10, 0, envs, delta);
  }

  lemma ZeroDelivered(zone: text)
    requires ZoneOk(zone)
    ensures var s := (n: u32) => Soa(zone, n);
            Delivers(Files(Some([]), None, None, None), State(0xFFFF_FFFF, [], 0), zone, 10, 0,
                     [Batch([s(5), s(0xFFFF_FFFF), s(5), s(5)])],
                     NetDelta([Diff(0xFFFF_FFFF, [], 5, [])], zone, 0xFFFF_FFFF, 5))
  {
    hide ZoneOk, Interpret, NetDelta, WireTransfer, Received, Flatten, HeadLen, SerialGreater;
    var s := (n: u32) => Soa(zone, n);
    var all := [s(5), s(0xFFFF_FFFF), s(5), s(5)];
    OneEnvelope(all);
    EmptyInterpreted(zone);
    SoasWire(all, zone);
    SmallReceived(all, zone, 0xFFFF_FFFF);
    WrapsToZero();
  }

  lemma WrapsToZero()
    ensures SerialGreater(0, 0xFFFF_FFFF)
  {
    hide SerialGreater, Distance;
    DistanceIs(0xFFFF_FFFF, 0);
  }

  /** One short envelope is received as its records say, when the announced serial is 0. */
  lemma SmallReceived(rs: seq<RR>, zone: text, start: u32)
    requires |rs| <= 10 && Flatten([Batch(rs)]) == rs
    ensures Received([Batch(rs)], zone, start, 0, 10) == Interpret(rs, zone, start)
  {
    hide Interpret, HeadLen, Flatten, IsIxfrResponse;
    assert !HasFault([Batch(rs)]);
  }

  /** A published increment is the last one in the cache. */
  lemma IncrementCached(files: Files, state: State, zone: text, limit: nat, soa: u32, envs: seq<Envelope>, delta: Delta)
    requires limit > 0 && Delivers(files, state, zone, limit, soa, envs, delta) && !delta.full
    ensures var (_, state', outcome) := SyncStep(files, state, zone, limit, Some(soa), envs, NoFailure);
            outcome.Published? ==> state'.deltas == KeepLast(state.deltas + [delta.(staged := None)], CACHE)
  {
    hide Received, WireTransfer, Publish;
  }

  lemma SoasWire(rs: seq<RR>, zone: text)
    requires ZoneOk(zone) && forall i :: 0 <= i < |rs| ==> rs[i].Soa? && rs[i].owner == zone
    ensures WireTransfer(rs)
  {
    hide IsName, ToLower, Fqdn, IsSubDomain;
  }

  lemma EmptyInterpreted(zone: text)
    requires ZoneOk(zone)
    ensures var s := (n: u32) => Soa(zone, n);
            Interpret([s(5), s(0xFFFF_FFFF), s(5), s(5)], zone, 0xFFFF_FFFF)
              == Ok(Some(NetDelta([Diff(0xFFFF_FFFF, [], 5, [])], zone, 0xFFFF_FFFF, 5)))
  {
    hide ParseTransfer, NetDelta, IsName;
    ZoneText(zone);
    EmptyChain(zone);
  }

  lemma EmptyChain(zone: text)
    requires ToLower(Fqdn(zone)) == zone
    ensures var s := (n: u32) => Soa(zone, n);
            ParseTransfer([s(5), s(0xFFFF_FFFF), s(5), s(5)], zone, 0xFFFF_FFFF)
              == Ok(Some(NetDelta([Diff(0xFFFF_FFFF, [], 5, [])], zone, 0xFFFF_FFFF, 5)))
  {
    hide Fqdn, NetDelta;
    LowerIdempotent(Fqdn(zone));
    var s := (n: u32) => Soa(zone, n);
    var all := [s(5), s(0xFFFF_FFFF), s(5), s(5)];
    var d := Diff(0xFFFF_FFFF, [], 5, []);
    var rest := all[1..];
    assert rest[1..1] == [] && rest[2..2] == [];
    assert Leads(rest, zone, d);
    assert IsChain(rest, zone, 0xFFFF_FFFF, 5, [d]);
    ChainsAccepted(all, zone, 0xFFFF_FFFF, [d]);
  }

  lemma EmptyNet(zone: text)
    ensures var delta := NetDelta([Diff(0xFFFF_FFFF, [], 5, [])], zone, 0xFFFF_FFFF, 5);
            delta.toSerial == 5 && !delta.full
  {
    hide Changes;
  }
}
