/** What the cache of increments holds, after one poll and after every run. */
module RpzCache {
  import opened Basics
  import opened Bytes
  import opened Text
  import opened RpzRecords
  import opened RpzSerial
  import opened RpzStream
  import opened RpzFile
  import opened RpzServe
  import opened RpzApp
  import opened RpzRuns

  /** The deltas are the last ones of a list, at most twenty of them, in order. */
  ghost predicate LastTwenty(deltas: seq<Delta>, all: seq<Delta>) {
    && |deltas| == (if |all| < 20 then |all| else 20)
    && forall i :: 0 <= i < |deltas| ==> deltas[i] == all[|all| - |deltas| + i]
  }

  /** The increment this event publishes, if it does. */
  ghost function Increment(files: Files, state: State, e: Event, zone: text, maxRecords: int): seq<Delta> {
    if e.Poll? && e.soa.Some? && Step(files, state, e, zone, maxRecords).2.Published? then
      var r := Received(e.envs, zone, StartSerial(files, state), e.soa.value, Limit(maxRecords));
      if r.Ok? && r.value.Some? && !r.value.value.full then [r.value.value] else []
    else []
  }

  /** All increments a run publishes, oldest first. */
  ghost function Increments(events: seq<Event>, zone: text, maxRecords: int): seq<Delta> {
    if events == [] then []
    else
      var front := events[..|events| - 1];
      var (files, state) := Run(front, zone, maxRecords);
      Increments(front, zone, maxRecords) + Increment(files, state, events[|events| - 1], zone, maxRecords)
  }

  lemma KeptLast(deltas: seq<Delta>, d: Delta, all: seq<Delta>)
    requires LastTwenty(deltas, all)
    ensures LastTwenty(KeepLast(deltas + [d], CACHE), all + [d])
  {
    var more, kept := deltas + [d], KeepLast(deltas + [d], CACHE);
    forall i | 0 <= i < |kept| ensures kept[i] == (all + [d])[|all| + 1 - |kept| + i] {
      assert kept[i] == more[|more| - |kept| + i];
    }
  }

  /** A poll that publishes an increment caches it; no other poll, and no full transfer, touches the cache. */
  lemma PollCaches(files: Files, state: State, soa: u32, envs: seq<Envelope>, failure: Failure, zone: text,
                   maxRecords: int)
    requires ZoneOk(zone) && GoodInput(Some(soa), envs)
    ensures var e := Poll(Some(soa), envs, failure);
            var (_, state', outcome) := Step(files, state, e, zone, maxRecords);
            var more := Increment(files, state, e, zone, maxRecords);
            && (outcome.Published? && more != [] ==>
                  state'.deltas == KeepLast(state.deltas + more, CACHE) && state'.serial == more[0].toSerial
                  && more[0].fromSerial == StartSerial(files, state) && |more| == 1)
            && (!outcome.Published? || more == [] ==> state'.deltas == state.deltas)
  {
    hide Received, Publish, GoodInput, ZoneOk, KeepLast, WireTransfer;
    var start := StartSerial(files, state);
    SameStep(files, state, zone, maxRecords, soa, envs, failure);
    var r := Received(envs, zone, start, soa, Limit(maxRecords));
    if r.Ok? && r.value.Some? {
      ToAnnounced(zone, soa, envs, start, Limit(maxRecords));
      if !r.value.value.full {
        IncrementServable(zone, soa, envs, start, Limit(maxRecords));
        StoredAsIs(r.value.value);
      }
    }
  }

  lemma IncrementServable(zone: text, soa: u32, envs: seq<Envelope>, start: u32, limit: nat)
    requires ZoneOk(zone) && GoodInput(Some(soa), envs)
    requires var r := Received(envs, zone, start, soa, limit); r.Ok? && r.value.Some? && !r.value.value.full
    ensures var delta := Received(envs, zone, start, soa, limit).value.value;
            Servable(delta) && delta.fromSerial == start
  {
    hide Received, ZoneOk, WireTransfer, Servable, Flatten;
    ReceivedIs(envs, zone, start, soa, limit);
    ParsedServable(Flatten(envs), zone, start);
  }

  /** After a published increment it is the last one cached, and a client at the serial it starts from is served it. */
  lemma PublishedIsServed(files: Files, state: State, zone: text, maxRecords: int, soa: u32, envs: seq<Envelope>,
                          delta: Delta)
    requires ZoneOk(zone) && GoodInput(Some(soa), envs) && (files.raw.Some? ==> AllDomains(files.raw.value))
    requires Delivers(files, state, zone, Limit(maxRecords), soa, envs, delta) && !delta.full
    ensures var (_, state', outcome) := SyncStep(files, state, zone, maxRecords, Some(soa), envs, NoFailure);
            var n := |state'.deltas|;
            && outcome.Published? && n > 0 && state'.deltas[n - 1] == delta
            && FromCache(state', AskSince(delta.fromSerial))
            && IsLatest(state'.deltas, delta.fromSerial, state'.serial, n - 1)
  {
    hide SyncStep, GoodInput, ZoneOk, Servable, FileSet, AllDomains, Effect, RawSet, Received;
    var e := Poll(Some(soa), envs, NoFailure);
    SameStep(files, state, zone, maxRecords, soa, envs, NoFailure);
    StepEffect(files, state, zone, Limit(maxRecords), soa, envs, NoFailure, delta);
    PollCaches(files, state, soa, envs, NoFailure, zone, maxRecords);
    assert Increment(files, state, e, zone, maxRecords) == [delta];
    var state' := SyncStep(files, state, zone, maxRecords, Some(soa), envs, NoFailure).1;
    LastKept(state.deltas, delta);
    assert IsLatest(state'.deltas, delta.fromSerial, state'.serial, |state'.deltas| - 1);
  }

  lemma LastKept(deltas: seq<Delta>, d: Delta)
    ensures var kept := KeepLast(deltas + [d], CACHE); kept != [] && kept[|kept| - 1] == d
  {
  }

  /** After every run the cache holds exactly the last twenty increments the run published, in order. */
  lemma {:induction false} CacheIsLastTwenty(events: seq<Event>, zone: text, maxRecords: int)
    requires GoodInputs(events) && ZoneOk(zone)
    ensures LastTwenty(Run(events, zone, maxRecords).1.deltas, Increments(events, zone, maxRecords))
  {
    hide Step, ZoneOk, GoodEvent, LastTwenty, Increment, Sound, MovesForward;
    if events == [] {
      NoneYet();
    } else {
      var n := |events| - 1;
      var (files, state) := Run(events[..n], zone, maxRecords);
      CacheIsLastTwenty(events[..n], zone, maxRecords);
      RunSound(events[..n], zone, maxRecords);
      var pubs := History(events[..n], zone, maxRecords);
      StepCaches(files, state, pubs, events[n], zone, maxRecords, Increments(events[..n], zone, maxRecords));
    }
  }

  lemma NoneYet()
    ensures LastTwenty([], [])
  {
  }

  lemma StepCaches(files: Files, state: State, pubs: seq<Publication>, e: Event, zone: text, maxRecords: int,
                   all: seq<Delta>)
    requires Sound(files, state, pubs) && ZoneOk(zone) && GoodEvent(e) && LastTwenty(state.deltas, all)
    ensures LastTwenty(Step(files, state, e, zone, maxRecords).1.deltas,
                       all + Increment(files, state, e, zone, maxRecords))
  {
    hide SyncStep, GoodInput, ZoneOk, CacheOk, AllDomains, Visible, LastTwenty, KeepLast, Received;
    var more := Increment(files, state, e, zone, maxRecords);
    if e.Poll? && e.soa.Some? {
      assert e == Poll(Some(e.soa.value), e.envs, e.failure);
      PollCaches(files, state, e.soa.value, e.envs, e.failure, zone, maxRecords);
      if more != [] {
        KeptLast(state.deltas, more[0], all);
        assert more == [more[0]];
      }
    } else if e.Poll? {
      NoAnswer(files, state, e, zone, maxRecords);
    }
    assert all + [] == all;
  }

  lemma NoAnswer(files: Files, state: State, e: Event, zone: text, maxRecords: int)
    requires e.Poll? && e.soa.None?
    ensures Step(files, state, e, zone, maxRecords).1 == state
  {
    hide Received, Publish;
  }

  lemma {:induction false} LatestExists(deltas: seq<Delta>, from: u32, to: u32)
    ensures (exists i :: 0 <= i < |deltas| && Leads(deltas[i], from, to)) <==>
              exists i: nat :: IsLatest(deltas, from, to, i)
  {
    if deltas != [] {
      var n := |deltas| - 1;
      if Leads(deltas[n], from, to) {
        assert IsLatest(deltas, from, to, n);
      } else {
        LatestExists(deltas[..n], from, to);
        assert forall i: nat :: IsLatest(deltas[..n], from, to, i) <==> IsLatest(deltas, from, to, i);
        assert forall i :: 0 <= i < n ==> deltas[..n][i] == deltas[i];
      }
    }
  }

  predicate Leads(d: Delta, from: u32, to: u32) {
    d.fromSerial == from && d.toSerial == to
  }

  /**
   * After every run a client is answered from the cache exactly when one of the last twenty published
   * increments leads from its serial to the current one.
   */
  lemma ServedExactly(events: seq<Event>, zone: text, maxRecords: int, s: u32)
    requires GoodInputs(events) && ZoneOk(zone)
    ensures var state, all := Run(events, zone, maxRecords).1, Increments(events, zone, maxRecords);
            FromCache(state, AskSince(s)) <==>
              exists i :: 0 <= i < |all| && |all| - 20 <= i && Leads(all[i], s, state.serial)
  {
    hide Run, Increments, ZoneOk, GoodInputs, IsLatest, Leads;
    var state, all := Run(events, zone, maxRecords).1, Increments(events, zone, maxRecords);
    CacheIsLastTwenty(events, zone, maxRecords);
    LatestExists(state.deltas, s, state.serial);
    var k := |all| - |state.deltas|;
    if i :| 0 <= i < |all| && |all| - 20 <= i && Leads(all[i], s, state.serial) {
      assert state.deltas[i - k] == all[i];
    }
  }
}
