/** Whole runs of the secondary: what its clients converge to, and how a broken publication heals. */
module RpzRuns {
  import opened Basics
  import opened Bytes
  import opened Text
  import opened RpzNames
  import opened RpzRecords
  import opened RpzSerial
  import opened RpzTransfer
  import opened RpzStream
  import opened RpzFile
  import opened RpzServe
  import opened RpzApp
  import opened Sorting

  // ------------------------------------------------------------------ runs

  /** One poll, with the SOA answer, the transfer stream and a failing publication step; or a new process. */
  datatype Event = Poll(soa: Option<u32>, envs: seq<Envelope>, failure: Failure) | NewProcess

  ghost function Step(files: Files, state: State, e: Event, zone: text, maxRecords: int): (Files, State, Outcome) {
    match e
    case Poll(soa, envs, failure) => SyncStep(files, state, zone, maxRecords, soa, envs, failure)
    case NewProcess => (files, Restored(files), Unchanged)
  }

  ghost function Run(events: seq<Event>, zone: text, maxRecords: int): (Files, State) {
    if events == [] then (Files(None, None, None, None), State(0, [], 0))
    else
      var (files, state) := Run(events[..|events| - 1], zone, maxRecords);
      var (files', state', _) := Step(files, state, events[|events| - 1], zone, maxRecords);
      (files', state')
  }

  /** The publications after one more event. */
  ghost function Next(files: Files, state: State, pubs: seq<Publication>, e: Event, zone: text, maxRecords: int)
    : seq<Publication>
  {
    if e.Poll? && e.soa.Some? then Grown(files, state, pubs, zone, maxRecords, e.soa.value, e.envs, e.failure)
    else pubs
  }

  /** The publications a run makes, oldest first. */
  ghost function History(events: seq<Event>, zone: text, maxRecords: int): seq<Publication> {
    if events == [] then []
    else
      var front := events[..|events| - 1];
      var (files, state) := Run(front, zone, maxRecords);
      Next(files, state, History(front, zone, maxRecords), events[|events| - 1], zone, maxRecords)
  }

  ghost predicate GoodEvent(e: Event) {
    e.Poll? ==> GoodInput(e.soa, e.envs)
  }

  ghost predicate GoodInputs(events: seq<Event>) {
    forall k :: 0 <= k < |events| ==> GoodEvent(events[k])
  }

  ghost predicate MovesForward(pubs: seq<Publication>) {
    forall j :: 0 <= j < |pubs| - 1 ==> SerialGreater(pubs[j + 1].serial, pubs[j].serial)
  }

  /** This event breaks off a publication behind the raw rename. */
  predicate Breaks(e: Event) {
    e.Poll? && BreaksAfterRaw(e.failure)
  }

  /** One event of a run: it stays sound, a publication makes it consistent, and only a break unsettles it. */
  lemma StepKeeps(files: Files, state: State, pubs: seq<Publication>, e: Event, zone: text, maxRecords: int)
    requires Sound(files, state, pubs) && ZoneOk(zone) && GoodEvent(e)
    ensures var (files', state', outcome) := Step(files, state, e, zone, maxRecords);
            var pubs' := Next(files, state, pubs, e, zone, maxRecords);
            && Sound(files', state', pubs')
            && (outcome.Published? ==> Consistent(files', state', pubs'))
            && (!outcome.Published? ==> pubs' == pubs)
            && (!outcome.Published? && !Breaks(e) ==> files' == files && state' == state)
            && (outcome.Published? ==> |pubs'| == |pubs| + 1 && pubs'[..|pubs|] == pubs)
            && (outcome.Published? && pubs != [] ==> SerialGreater(pubs'[|pubs|].serial, pubs[|pubs| - 1].serial))
  {
    hide GoodInput, Consistent, AllDomains, CacheOk, ZoneOk, FileSet, Visible, Received, Publish, NextState, Heals;
    if e.Poll? && e.soa.Some? {
      SyncKeepsSound(files, state, pubs, zone, maxRecords, e.soa.value, e.envs, e.failure);
    }
  }

  /** After every run from nothing, with any failing steps and restarts, the secondary is sound. */
  lemma {:induction false} RunSound(events: seq<Event>, zone: text, maxRecords: int)
    requires GoodInputs(events) && ZoneOk(zone)
    ensures Sound(Run(events, zone, maxRecords).0, Run(events, zone, maxRecords).1, History(events, zone, maxRecords))
    ensures MovesForward(History(events, zone, maxRecords))
  {
    hide Sound, Step, Next, ZoneOk, SerialGreater, Consistent, Breaks, GoodEvent;
    if events == [] {
      NothingYet();
    } else {
      var n := |events| - 1;
      RunSound(events[..n], zone, maxRecords);
      var (files, state) := Run(events[..n], zone, maxRecords);
      var pubs := History(events[..n], zone, maxRecords);
      StepKeeps(files, state, pubs, events[n], zone, maxRecords);
      if Step(files, state, events[n], zone, maxRecords).2.Published? {
        StaysForward(pubs, Next(files, state, pubs, events[n], zone, maxRecords));
      }
    }
  }

  lemma StaysForward(pubs: seq<Publication>, more: seq<Publication>)
    requires MovesForward(pubs) && |more| == |pubs| + 1 && more[..|pubs|] == pubs
    requires pubs != [] ==> SerialGreater(more[|pubs|].serial, pubs[|pubs| - 1].serial)
    ensures MovesForward(more)
  {
    hide SerialGreater;
    forall j | 0 <= j < |more| - 1 ensures SerialGreater(more[j + 1].serial, more[j].serial) {
      assert more[j] == pubs[j];
      assert j < |pubs| - 1 ==> more[j + 1] == pubs[j + 1];
    }
  }

  lemma NothingYet()
    ensures Sound(Files(None, None, None, None), State(0, [], 0), [])
    ensures Consistent(Files(None, None, None, None), State(0, [], 0), [])
  {
  }

  /** No step fails between the raw rename and the state save since the last publication. */
  ghost predicate WholeSince(events: seq<Event>, zone: text, maxRecords: int) {
    if events == [] then true
    else
      var front, e := events[..|events| - 1], events[|events| - 1];
      var (files, state) := Run(front, zone, maxRecords);
      || Step(files, state, e, zone, maxRecords).2.Published?
      || (!Breaks(e) && WholeSince(front, zone, maxRecords))
  }

  /** Then files, state and cache describe the publications made so far. */
  lemma {:induction false} RunConsistent(events: seq<Event>, zone: text, maxRecords: int)
    requires GoodInputs(events) && ZoneOk(zone) && WholeSince(events, zone, maxRecords)
    ensures Consistent(Run(events, zone, maxRecords).0, Run(events, zone, maxRecords).1,
                       History(events, zone, maxRecords))
  {
    hide Sound, Step, Next, ZoneOk, Consistent, Breaks, SerialGreater, GoodEvent;
    if events == [] {
      NothingYet();
    } else {
      var n := |events| - 1;
      RunSound(events[..n], zone, maxRecords);
      var (files, state) := Run(events[..n], zone, maxRecords);
      StepKeeps(files, state, History(events[..n], zone, maxRecords), events[n], zone, maxRecords);
      if !Step(files, state, events[n], zone, maxRecords).2.Published? {
        RunConsistent(events[..n], zone, maxRecords);
      }
    }
  }

  ghost predicate Unbroken(events: seq<Event>) {
    forall k :: 0 <= k < |events| ==> !Breaks(events[k])
  }

  ghost predicate AllHealed(pubs: seq<Publication>) {
    forall j :: 0 <= j < |pubs| ==> pubs[j].healed
  }

  /** In a run in which nothing breaks behind the raw rename every publication heals. */
  lemma {:induction false} UnbrokenHeals(events: seq<Event>, zone: text, maxRecords: int)
    requires GoodInputs(events) && Unbroken(events) && ZoneOk(zone)
    ensures WholeSince(events, zone, maxRecords) && AllHealed(History(events, zone, maxRecords))
  {
    hide Step, Next, ZoneOk, Consistent, GoodEvent, Breaks, Sound, Settled;
    if events != [] {
      var n := |events| - 1;
      UnbrokenHeals(events[..n], zone, maxRecords);
      RunConsistent(events[..n], zone, maxRecords);
      var (files, state) := Run(events[..n], zone, maxRecords);
      var pubs := History(events[..n], zone, maxRecords);
      ConsistentSound(files, state, pubs);
      SettledNext(files, state, pubs, events[n], zone, maxRecords);
    }
  }

  lemma SettledNext(files: Files, state: State, pubs: seq<Publication>, e: Event, zone: text, maxRecords: int)
    requires Settled(files, pubs) && AllHealed(pubs)
    ensures AllHealed(Next(files, state, pubs, e, zone, maxRecords))
  {
    hide SyncStep, Received, WireTransfer, HealsHere, Settled, RawSet;
    if e.Poll? && e.soa.Some? {
      forall delta | Delivers(files, state, zone, Limit(maxRecords), e.soa.value, e.envs, delta)
        ensures HealsHere(files, pubs, delta)
      {
        SettledHeals(files, pubs, delta);
      }
    }
  }

  // ------------------------------------------------ downstream convergence

  ghost predicate DistinctSerials(pubs: seq<Publication>) {
    forall i, j :: 0 <= i < j < |pubs| ==> pubs[i].serial != pubs[j].serial
  }

  /** A client that holds publication p: its raw file lists the set, its state has the serial. */
  ghost predicate Holds(files: Files, state: State, p: Publication) {
    files.raw.Some? && AllDomains(files.raw.value) && FileSet(files.raw.value) == p.domains && state.serial == p.serial
  }

  /** The client holds the j-th of these publications, whose serials differ, and it is older than the last. */
  ghost predicate EarlierClient(pubs: seq<Publication>, j: nat, files: Files, state: State) {
    && j < |pubs| && DistinctSerials(pubs) && Holds(files, state, pubs[j])
    && SerialGreater(pubs[|pubs| - 1].serial, pubs[j].serial)
  }

  ghost function Current(pubs: seq<Publication>): Publication {
    if pubs == [] then Publication(0, {}, true) else pubs[|pubs| - 1]
  }

  /** The delta a client at an earlier publication is served leads to the current one exactly if that healed. */
  lemma CachedLeadsHere(deltas: seq<Delta>, pubs: seq<Publication>, j: nat, i: nat)
    requires CacheOk(deltas, pubs) && DistinctSerials(pubs) && j < |pubs|
    requires SerialGreater(Current(pubs).serial, pubs[j].serial)
    requires IsLatest(deltas, pubs[j].serial, Current(pubs).serial, i)
    ensures Servable(deltas[i])
    ensures Effect(deltas[i], pubs[j].domains) == Current(pubs).domains <==> Current(pubs).healed
  {
    hide Servable, Effect;
    assert CachedExactly(deltas[i], pubs);
    assert j != |pubs| - 1;
    var k: nat :| Between(deltas[i], pubs, k);
    assert k == j;
    assert k + 1 == |pubs| - 1;
  }

  /** The server answers from its cache: it has a delta from the client's serial to its own. */
  ghost predicate FromCache(state: State, request: Request) {
    request.AskSince? && exists i: nat :: IsLatest(state.deltas, request.serial, state.serial, i)
  }

  /** What a client at serial s makes of an answer: a cached delta, or the domains of the raw file. */
  lemma AnswerMeaning(state: State, lines: seq<text>, pubs: seq<Publication>, j: nat, request: Request, zone: text,
                      records: seq<RR>)
    requires ZoneOk(zone) && zone != "." && j < |pubs| && DistinctSerials(pubs)
    requires CacheOk(state.deltas, pubs) && AllDomains(lines) && state.serial == Current(pubs).serial
    requires SerialGreater(state.serial, pubs[j].serial)
    requires request == AskFull || request == AskSince(pubs[j].serial)
    requires Answers(state, lines, request, zone, records)
    ensures var s := pubs[j].serial;
            if FromCache(state, request) then
              exists d: Delta ::
                && Interpret(records, zone, s) == Ok(Some(d)) && Servable(d) && d.toSerial == state.serial
                && (Effect(d, pubs[j].domains) == Current(pubs).domains <==> Current(pubs).healed)
            else Interpret(records, zone, s) == Ok(Some(Delta(s, state.serial, true, [], [], Some(Domains(lines)))))
  {
    hide CacheOk, AllDomains, Servable, Interpret, AxfrRecords, IxfrRecords, ZoneOk, Effect, Domains;
    var s := pubs[j].serial;
    if FromCache(state, request) {
      var i: nat :| IsLatest(state.deltas, s, state.serial, i) && records == IxfrRecords(state.deltas[i], s, zone);
      LatestSerial(state.deltas, s, state.serial, i);
      CachedLeadsHere(state.deltas, pubs, j, i);
      IncrementInterpreted(state.deltas[i], zone);
    } else {
      AxfrRoundTrip(state.serial, lines, zone, s);
    }
  }

  lemma LatestSerial(deltas: seq<Delta>, from: u32, to: u32, i: nat)
    requires IsLatest(deltas, from, to, i)
    ensures i < |deltas| && deltas[i].fromSerial == from && deltas[i].toSerial == to
  {
  }

  lemma IncrementInterpreted(d: Delta, zone: text)
    requires Servable(d) && ZoneOk(zone) && zone != "."
    ensures Interpret(IxfrRecords(d, d.fromSerial, zone), zone, d.fromSerial) == Ok(Some(d))
  {
    hide ParseTransfer, NetForm, AllDomains, IsName, StreamAxfr, Records;
    IxfrRoundTrip(d, zone);
    ZoneText(zone);
  }

  /** These envelopes are a fault-free answer to the request, from this state and raw file. */
  ghost predicate ServerAnswers(server: (Files, State), request: Request, zone: text, envs: seq<Envelope>) {
    !HasFault(envs) && server.0.raw.Some? && Answers(server.1, server.0.raw.value, request, zone, Flatten(envs))
  }

  /** The client's poll succeeds and leaves it holding this publication. */
  ghost predicate ExchangeReaches(files: Files, state: State, zone: text, maxRecords: nat, p: Publication,
                                  envs: seq<Envelope>) {
    var (files', state', outcome) := SyncStep(files, state, zone, maxRecords, Some(p.serial), envs, NoFailure);
    outcome.Published? && Holds(files', state', p)
  }

  /**
   * Downstream convergence, exactly. After any run with distinct serials, with failing steps, breaks and
   * restarts, a client that holds any earlier publication and completes one exchange, whatever its split
   * into envelopes, ends with exactly the current set and serial if and only if, answered from the cache,
   * the current publication healed, and answered in full, no break has left other domains in the raw file.
   */
  lemma DownstreamConverges(events: seq<Event>, zone: text, maxRecords: int, j: nat,
                            clientFiles: Files, clientState: State, clientMax: nat, request: Request,
                            envs: seq<Envelope>)
    requires ZoneOk(zone) && zone != "." && GoodInputs(events)
    requires EarlierClient(History(events, zone, maxRecords), j, clientFiles, clientState)
    requires request == AskFull || request == AskSince(clientState.serial)
    requires ServerAnswers(Run(events, zone, maxRecords), request, zone, envs)
    requires 0 < clientMax && |Flatten(envs)| <= clientMax
    ensures var (files, state) := Run(events, zone, maxRecords);
            var pubs := History(events, zone, maxRecords);
            ExchangeReaches(clientFiles, clientState, zone, clientMax, Current(pubs), envs) <==>
              if FromCache(state, request) then Current(pubs).healed else Settled(files, pubs)
  {
    hide Run, History, ZoneOk, AllDomains, Answers, CacheOk, FileSet, Flatten, GoodInputs, ExchangeReaches;
    hide FromCache, Visible;
    var (files, state) := Run(events, zone, maxRecords);
    var pubs := History(events, zone, maxRecords);
    RunSound(events, zone, maxRecords);
    Exchange(state, files.raw.value, zone, pubs, j, clientFiles, clientState, clientMax, request, envs);
  }

  /** Nothing broken since the last publication: only a cached delta that did not heal can mislead a client. */
  lemma DownstreamConvergesWhole(events: seq<Event>, zone: text, maxRecords: int, j: nat,
                                 clientFiles: Files, clientState: State, clientMax: nat, request: Request,
                                 envs: seq<Envelope>)
    requires ZoneOk(zone) && zone != "." && GoodInputs(events) && WholeSince(events, zone, maxRecords)
    requires EarlierClient(History(events, zone, maxRecords), j, clientFiles, clientState)
    requires request == AskFull || request == AskSince(clientState.serial)
    requires ServerAnswers(Run(events, zone, maxRecords), request, zone, envs)
    requires 0 < clientMax && |Flatten(envs)| <= clientMax
    ensures var pubs := History(events, zone, maxRecords);
            && (ExchangeReaches(clientFiles, clientState, zone, clientMax, Current(pubs), envs) <==>
                  Current(pubs).healed || !FromCache(Run(events, zone, maxRecords).1, request))
            && (Unbroken(events) ==>
                  ExchangeReaches(clientFiles, clientState, zone, clientMax, Current(pubs), envs))
  {
    hide Run, History, ZoneOk, Flatten, GoodInputs, ExchangeReaches, DistinctSerials, Holds, ServerAnswers, WholeSince;
    hide Consistent, Settled, FromCache, Unbroken;
    RunConsistent(events, zone, maxRecords);
    ConsistentSound(Run(events, zone, maxRecords).0, Run(events, zone, maxRecords).1,
                    History(events, zone, maxRecords));
    DownstreamConverges(events, zone, maxRecords, j, clientFiles, clientState, clientMax, request, envs);
    if Unbroken(events) {
      UnbrokenHeals(events, zone, maxRecords);
    }
  }

  /** A client reaches at most one set with a serial. */
  lemma ReachesOne(files: Files, state: State, zone: text, maxRecords: nat, p: Publication, q: Publication,
                   envs: seq<Envelope>)
    requires ExchangeReaches(files, state, zone, maxRecords, p, envs) && p.serial == q.serial
    ensures ExchangeReaches(files, state, zone, maxRecords, q, envs) <==> p.domains == q.domains
  {
    hide SyncStep, AllDomains, FileSet;
  }

  /** One exchange with a server whose cache is exact: a cached increment, or the raw file's set. */
  lemma Exchange(state: State, lines: seq<text>, zone: text, pubs: seq<Publication>, j: nat,
                 clientFiles: Files, clientState: State, clientMax: nat, request: Request, envs: seq<Envelope>)
    requires ZoneOk(zone) && zone != "." && CacheOk(state.deltas, pubs) && AllDomains(lines)
    requires EarlierClient(pubs, j, clientFiles, clientState) && state.serial == Current(pubs).serial
    requires request == AskFull || request == AskSince(pubs[j].serial)
    requires Answers(state, lines, request, zone, Flatten(envs))
    requires !HasFault(envs) && 0 < clientMax && |Flatten(envs)| <= clientMax
    ensures ExchangeReaches(clientFiles, clientState, zone, clientMax, Current(pubs), envs) <==>
              if FromCache(state, request) then Current(pubs).healed else FileSet(lines) == Current(pubs).domains
  {
    hide ZoneOk, AllDomains, Answers, CacheOk, FileSet, Flatten, Interpret, Servable, Effect, PlainLines;
    hide FromCache, ExchangeReaches, Domains;
    var s := pubs[j].serial;
    AnswerMeaning(state, lines, pubs, j, request, zone, Flatten(envs));
    if FromCache(state, request) {
      var d: Delta :|
        && Interpret(Flatten(envs), zone, s) == Ok(Some(d)) && Servable(d) && d.toSerial == state.serial
        && (Effect(d, pubs[j].domains) == Current(pubs).domains <==> Current(pubs).healed);
      var p := Publication(state.serial, Effect(d, pubs[j].domains), true);
      TakesIncrement(clientFiles, clientState, zone, clientMax, pubs[j], p, envs, d);
      ReachesOne(clientFiles, clientState, zone, clientMax, p, Current(pubs), envs);
    } else {
      var p := Publication(state.serial, FileSet(lines), true);
      TakesFull(clientFiles, clientState, zone, clientMax, p, envs, lines);
      ReachesOne(clientFiles, clientState, zone, clientMax, p, Current(pubs), envs);
    }
  }

  /** A client taking this delta publishes the staged lines. */
  lemma TakesDelta(files: Files, state: State, zone: text, maxRecords: nat, p: Publication, envs: seq<Envelope>,
                   delta: Delta, out: seq<text>)
    requires files.raw.Some? && SerialGreater(p.serial, state.serial)
    requires !HasFault(envs) && 0 < maxRecords && |Flatten(envs)| <= maxRecords
    requires Interpret(Flatten(envs), zone, state.serial) == Ok(Some(delta)) && delta.toSerial == p.serial
    requires StagedRaw(files, delta) == Some(out) && AllDomains(out) && FileSet(out) == p.domains
    ensures ExchangeReaches(files, state, zone, maxRecords, p, envs)
  {
    hide AllDomains, FileSet, Flatten, Interpret, StagedRaw, Publish, NextState, Describe, IsIxfrResponse, HeadLen;
    PublishDescribes(files, state, delta, out, p.serial);
    assert Received(envs, zone, state.serial, p.serial, maxRecords) == Ok(Some(delta));
    DescribedHolds(files, state, delta, out, p);
  }

  lemma DescribedHolds(files: Files, state: State, delta: Delta, out: seq<text>, p: Publication)
    requires FileSet(out) == p.domains
    requires var (published, total) := Publish(files, delta, NoFailure);
             && total.Some?
             && var next := NextState(state, delta, p.serial, total.value);
                Describe(published.(saved := Some(next)), next, Publication(p.serial, FileSet(out), true))
    ensures var (published, total) := Publish(files, delta, NoFailure);
            var next := NextState(state, delta, p.serial, total.value);
            Holds(published.(saved := Some(next)), next, p)
  {
    hide Publish, NextState, AllDomains, FileSet, Domains;
  }

  lemma TakesIncrement(files: Files, state: State, zone: text, maxRecords: nat, from: Publication, p: Publication,
                       envs: seq<Envelope>, d: Delta)
    requires Holds(files, state, from) && SerialGreater(p.serial, from.serial)
    requires !HasFault(envs) && 0 < maxRecords && |Flatten(envs)| <= maxRecords
    requires Interpret(Flatten(envs), zone, state.serial) == Ok(Some(d)) && d.toSerial == p.serial
    requires Servable(d) && p.domains == Effect(d, from.domains)
    ensures ExchangeReaches(files, state, zone, maxRecords, p, envs)
  {
    hide AllDomains, FileSet, Flatten, Interpret, Apply, Rewritten, Visible, ExchangeReaches;
    var raw := files.raw.value;
    RewriteDomains(raw, d);
    TakesDelta(files, state, zone, maxRecords, p, envs, d, Rewritten(Some(raw), d).value);
  }

  lemma TakesFull(files: Files, state: State, zone: text, maxRecords: nat, p: Publication, envs: seq<Envelope>,
                  lines: seq<text>)
    requires files.raw.Some? && SerialGreater(p.serial, state.serial)
    requires !HasFault(envs) && 0 < maxRecords && |Flatten(envs)| <= maxRecords
    requires AllDomains(lines) && p.domains == FileSet(lines)
    requires Interpret(Flatten(envs), zone, state.serial)
          == Ok(Some(Delta(state.serial, p.serial, true, [], [], Some(Domains(lines)))))
    ensures ExchangeReaches(files, state, zone, maxRecords, p, envs)
  {
    hide Flatten, Interpret, Domains, ExchangeReaches, DomainOk, WithoutHash;
    DomainFile(lines);
    WithoutHashDomains(lines);
    PlainFile(Domains(lines));
    TakesDelta(files, state, zone, maxRecords, p, envs,
               Delta(state.serial, p.serial, true, [], [], Some(Domains(lines))), Domains(lines));
  }
}
