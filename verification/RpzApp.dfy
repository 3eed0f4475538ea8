/** The secondary: polling upstream, publishing a delta step by step, caching it for its own clients. */
module RpzApp {
  import opened Basics
  import opened Bytes
  import opened Text
  import opened RpzNames
  import opened RpzRecords
  import opened RpzSerial
  import opened RpzTransfer
  import opened RpzStream
  import opened RpzFile
  import opened RpzServe
  import opened Sorting

  /** Files on disk: raw domains, keys of the compiled database, manifest count, saved state. */
  datatype Files = Files(raw: Option<seq<text>>, cdb: Option<seq<text>>, manifest: Option<nat>, saved: Option<State>)

  /** The step of a publication that fails, if one does. */
  datatype Failure = NoFailure | RawRename | CdbRename | ManifestRename | StateSave

  datatype Outcome = Failed | Unchanged | Published

  const CACHE: nat := 20

  function KeepLast<T>(s: seq<T>, n: nat): seq<T> {
    if |s| > n then s[|s| - n..] else s
  }

  // ------------------------------------------------------- specification

  /** The complete replacement of the raw file, before anything is renamed. */
  ghost function StagedRaw(files: Files, delta: Delta): Option<seq<text>> {
    if delta.full && delta.staged.Some? then delta.staged else Rewritten(files.raw, delta)
  }

  /** Files after publishing, up to the failing rename; the count when all renames succeeded. */
  ghost function Publish(files: Files, delta: Delta, failure: Failure): (Files, Option<nat>) {
    var staged := StagedRaw(files, delta);
    if staged.None? || !Readable(staged.value) || failure.RawRename? then (files, None)
    else
      var keys := Domains(staged.value);
      var withRaw := files.(raw := staged);
      if failure.CdbRename? then (withRaw, None)
      else
        var withCdb := withRaw.(cdb := Some(keys));
        if failure.ManifestRename? then (withCdb, None)
        else (withCdb.(manifest := Some(|keys|)), Some(|keys|))
  }

  ghost function NextState(state: State, delta: Delta, serial: u32, total: nat): State {
    State(serial, if delta.full then state.deltas else KeepLast(state.deltas + [delta.(staged := None)], CACHE), total)
  }

  /** The serial the next transfer starts from: 0 when the raw file is missing. */
  function StartSerial(files: Files, state: State): u32 {
    if files.raw.None? then 0 else state.serial
  }

  ghost function SyncStep(files: Files, state: State, zone: text, maxRecords: int, soa: Option<u32>,
                          envs: seq<Envelope>, failure: Failure)
      : (Files, State, Outcome)
  {
    var start := StartSerial(files, state);
    if soa.None? then (files, state, Failed)
    else if !SerialGreater(soa.value, start) then (files, state, Unchanged)
    else
      var limit: nat := if maxRecords <= 0 then 10_000_000 else maxRecords;
      match Received(envs, zone, start, soa.value, limit)
      case Err(_) => (files, state, Failed)
      case Ok(None) => (files, state, Unchanged)
      case Ok(Some(delta)) =>
        var (published, total) := Publish(files, delta, failure);
        if total.None? || failure.StateSave? then (published, state, Failed)
        else
          var next := NextState(state, delta, soa.value, total.value);
          (published.(saved := Some(next)), next, Published)
  }

  // ------------------------------------------------------- implementation

  class App {
    const zone: text
    const maxRecords: int
    var files: Files
    var state: State

    constructor (zone: text, maxRecords: int)
      ensures this.zone == zone && this.maxRecords == maxRecords
      ensures files == Files(None, None, None, None) && state == State(0, [], 0)
    {
      this.zone, this.maxRecords := zone, maxRecords;
      files, state := Files(None, None, None, None), State(0, [], 0);
    }

    method PublishDelta(delta: Delta, failure: Failure) returns (total: Option<nat>)
      modifies `files
      ensures (files, total) == Publish(old(files), delta, failure)
    {
      hide Rewritten, Readable, Domains;
      var staged: Option<seq<text>>;
      if delta.full && delta.staged.Some? {
        staged := delta.staged;
      } else {
        staged := ApplyDeltaToFile(files.raw, delta);
      }
      if staged.None? {
        return None;
      }
      var keys, count := CompileDomains(staged.value);
      if keys.None? {
        return None;
      }
      if failure.RawRename? {
        return None;
      }
      files := files.(raw := staged);
      if failure.CdbRename? {
        return None;
      }
      files := files.(cdb := keys);
      if failure.ManifestRename? {
        return None;
      }
      files := files.(manifest := Some(count));
      total := Some(count);
    }

    method Sync(soa: Option<u32>, envs: seq<Envelope>, failure: Failure) returns (outcome: Outcome)
      modifies this
      ensures (files, state, outcome) == SyncStep(old(files), old(state), zone, maxRecords, soa, envs, failure)
    {
      hide Received, Publish;
      var start := if files.raw.None? then 0 else state.serial;
      if soa.None? {
        return Failed;
      }
      if !SerialGreater(soa.value, start) {
        return Unchanged;
      }
      var response := SyncIxfr(envs, zone, start, soa.value, maxRecords);
      if response.Err? {
        return Failed;
      }
      if response.value.None? {
        return Unchanged;
      }
      var delta := response.value.value;
      var total := PublishDelta(delta, failure);
      if total.None? {
        return Failed;
      }
      var next := state;
      if !delta.full {
        var stored := delta.(staged := None);
        next := next.(deltas := next.deltas + [stored]);
        if |next.deltas| > 20 {
          next := next.(deltas := next.deltas[|next.deltas| - 20..]);
        }
      }
      next := next.(serial := soa.value, total := total.value);
      if failure.StateSave? {
        return Failed;
      }
      files := files.(saved := Some(next));
      state := next;
      outcome := Published;
    }

    /** A new process has what the state file says: whatever was published before, the state of the old one. */
    method Restart()
      modifies `state
      ensures state == Restored(files)
      ensures forall pubs :: Sound(files, old(state), pubs) ==> state == old(state)
    {
      state := if files.saved.Some? then files.saved.value else State(0, [], 0);
    }
  }

  function Restored(files: Files): State {
    if files.saved.Some? then files.saved.value else State(0, [], 0)
  }

  // ------------------------------------------- invariant over publications

  /** The domains of the raw file; none while there is no file. */
  function RawSet(files: Files): set<text> {
    if files.raw.None? then {} else FileSet(files.raw.value)
  }

  /** What a delta makes of the domains of the raw file. */
  function Effect(delta: Delta, s: set<text>): set<text> {
    Visible(if delta.full && delta.staged.Some? then Elems(delta.staged.value) else Apply(delta, s))
  }

  /** A published pair of serial and set of domains, and whether the transfer that led to it healed. */
  datatype Publication = Publication(serial: u32, domains: set<text>, healed: bool)

  /** A delta that was published between two publications leads from one to the other exactly if it healed. */
  ghost predicate Between(d: Delta, pubs: seq<Publication>, j: nat) {
    && j + 1 < |pubs|
    && pubs[j].serial == d.fromSerial && pubs[j + 1].serial == d.toSerial
    && (Effect(d, pubs[j].domains) == pubs[j + 1].domains <==> pubs[j + 1].healed)
  }

  /** A cached delta was published between two publications, or led to the first one. */
  ghost predicate CachedExactly(d: Delta, pubs: seq<Publication>) {
    && Servable(d)
    && ((exists j: nat :: Between(d, pubs, j)) || (pubs != [] && d.toSerial == pubs[0].serial))
  }

  ghost predicate CacheOk(deltas: seq<Delta>, pubs: seq<Publication>) {
    |deltas| <= CACHE && forall k :: 0 <= k < |deltas| ==> CachedExactly(deltas[k], pubs)
  }

  /** Everything on disk and in memory describes the last publication. */
  ghost predicate Consistent(files: Files, state: State, pubs: seq<Publication>) {
    if pubs == [] then files.raw.None? && state == State(0, [], 0) && files.saved.None?
    else
      Describe(files, state, pubs[|pubs| - 1]) && CacheOk(state.deltas, pubs)
  }

  /**
   * What also survives a publication that breaks off behind the raw rename: state file and memory agree,
   * the serial is the last publication's, and every cached delta is exact if it healed; the raw file may
   * be ahead of them.
   */
  ghost predicate Sound(files: Files, state: State, pubs: seq<Publication>) {
    && Restored(files) == state && CacheOk(state.deltas, pubs)
    && (files.raw.Some? ==> AllDomains(files.raw.value))
    && if pubs == [] then state == State(0, [], 0)
       else
         && files.raw.Some? && state.serial == pubs[|pubs| - 1].serial
         && Visible(pubs[|pubs| - 1].domains) == pubs[|pubs| - 1].domains
  }

  /** The raw file lists the last publication, and there is none before the first. */
  ghost predicate Settled(files: Files, pubs: seq<Publication>) {
    if pubs == [] then files.raw.None?
    else files.raw.Some? && FileSet(files.raw.value) == pubs[|pubs| - 1].domains
  }

  lemma ConsistentSound(files: Files, state: State, pubs: seq<Publication>)
    requires Consistent(files, state, pubs)
    ensures Sound(files, state, pubs) && Settled(files, pubs)
  {
    hide AllDomains, FileSet, CachedExactly, Visible;
    if pubs != [] {
      FileIsVisible(files.raw.value);
    }
  }

  ghost predicate Describe(files: Files, state: State, p: Publication) {
    && files.raw.Some? && AllDomains(files.raw.value)
    && FileSet(files.raw.value) == p.domains
    && files.cdb == Some(Domains(files.raw.value)) && files.manifest == Some(|Domains(files.raw.value)|)
    && state.serial == p.serial && state.total == |Domains(files.raw.value)|
    && files.saved == Some(state)
  }

  lemma PublishedIsConsistent(files: Files, state: State, pubs: seq<Publication>, p: Publication)
    requires Describe(files, state, p) && CacheOk(state.deltas, pubs + [p])
    ensures Consistent(files, state, pubs + [p])
  {
    hide Describe, CacheOk;
  }

  // ------------------------------------------------ transfers off the wire

  /** Records whose owners are wire names, as decoded messages have them. */
  ghost predicate WireTransfer(rs: seq<RR>) {
    forall i :: 0 <= i < |rs| ==> IsName(rs[i].owner)
  }

  ghost predicate DomainSet(s: set<text>) {
    forall d :: d in s ==> DomainOk(d)
  }

  lemma {:induction false} OwnersDomains(rs: seq<RR>, zone: text)
    requires WireTransfer(rs) && ZoneOk(zone)
    ensures DomainSet(Owners(rs, zone))
  {
    hide PolicyOwner, IsName, DomainOk, ZoneOk;
    if rs != [] {
      var n := |rs| - 1;
      OwnersDomains(rs[..n], zone);
      if PolicyOwner(rs[n], zone).Domain? {
        PolicyOwnerIsDomain(rs[n], zone);
      }
    }
  }

  lemma {:induction false} StagedDomains(rs: seq<RR>, zone: text, serial: u32)
    requires WireTransfer(rs) && ZoneOk(zone) && StreamAll(rs, zone, serial).Ok?
    ensures AllDomains(StreamAll(rs, zone, serial).value.lines)
  {
    hide PolicyOwner, IsName, DomainOk, ToLower, ZoneOk;
    if rs != [] {
      var n := |rs| - 1;
      StagedDomains(rs[..n], zone, serial);
      if PolicyOwner(rs[n], zone).Domain? {
        PolicyOwnerIsDomain(rs[n], zone);
      }
    }
  }

  ghost predicate WireDiffs(diffs: seq<Diff>) {
    forall k :: 0 <= k < |diffs| ==> WireTransfer(diffs[k].dels) && WireTransfer(diffs[k].adds)
  }

  lemma {:induction false} ChainWire(rs: seq<RR>, zone: text, from: u32, target: u32, diffs: seq<Diff>)
    requires IsChain(rs, zone, from, target, diffs) && WireTransfer(rs)
    ensures WireDiffs(diffs)
    decreases |diffs|
  {
    hide IsName, ZoneSoa, SerialGreater, OwnersOk;
    var d := diffs[0];
    LeadsSpan(rs, zone, d);
    LeadsWire(rs, zone, d);
    if d.toSerial != target {
      ChainWire(rs[Span(d)..], zone, d.toSerial, target, diffs[1..]);
      forall k | 0 <= k < |diffs| ensures WireTransfer(diffs[k].dels) && WireTransfer(diffs[k].adds) {
        assert k > 0 ==> diffs[k] == diffs[1..][k - 1];
      }
    }
  }

  lemma LeadsWire(rs: seq<RR>, zone: text, d: Diff)
    requires Leads(rs, zone, d) && WireTransfer(rs)
    ensures WireTransfer(d.dels) && WireTransfer(d.adds)
  {
    hide IsName, ZoneSoa, OwnersOk;
    var m := 1 + |d.dels|;
    forall i | 0 <= i < |d.dels| ensures IsName(d.dels[i].owner) {
      assert d.dels[i] == rs[1..m][i] == rs[i + 1];
    }
    forall i | 0 <= i < |d.adds| ensures IsName(d.adds[i].owner) {
      assert d.adds[i] == rs[m + 1..m + 1 + |d.adds|][i] == rs[m + 1 + i];
    }
  }

  lemma {:induction false} ChangesDomains(diffs: seq<Diff>, zone: text)
    requires WireDiffs(diffs) && ZoneOk(zone)
    ensures DomainSet(Changes(diffs, zone).Keys)
  {
    hide DomainOk, WireTransfer, Owners, ZoneOk;
    if diffs != [] {
      var n := |diffs| - 1;
      ChangesDomains(diffs[..n], zone);
      OwnersDomains(diffs[n].dels, zone);
      OwnersDomains(diffs[n].adds, zone);
    }
  }

  /** Every accepted incremental response yields a servable delta. */
  lemma ParsedServable(records: seq<RR>, zone: text, current: u32)
    requires ZoneOk(zone) && WireTransfer(records)
    requires var r := ParseTransfer(records, zone, current); r.Ok? && r.value.Some? && !r.value.value.full
    ensures var delta := ParseTransfer(records, zone, current).value.value;
            Servable(delta) && delta.fromSerial == current
  {
    hide DomainOk, WireTransfer, Owners, OwnersOk, ZoneOk, IsChain, Changes, ParseChain;
    ZoneText(zone);
    var diffs := IncrementalMeaning(records, zone, current);
    var delta := ParseTransfer(records, zone, current).value.value;
    WireTail(records);
    ChainWire(records[1..], zone, current, delta.toSerial, diffs);
    ChangesDomains(diffs, zone);
    SetIsDomains(delta.added);
    SetIsDomains(delta.deleted);
  }

  lemma SetIsDomains(values: seq<text>)
    requires DomainSet(Elems(values))
    ensures AllDomains(values)
  {
    hide DomainOk;
    forall i | 0 <= i < |values| ensures DomainOk(values[i]) {
      assert values[i] in Elems(values);
    }
  }

  lemma WireTail(rs: seq<RR>)
    requires WireTransfer(rs) && rs != []
    ensures WireTransfer(rs[1..])
  {
    hide IsName;
  }

  // ----------------------------------------------------- one step of a run

  lemma {:induction false} KeptDomains(domains: seq<text>, deleted: set<text>)
    requires AllDomains(domains)
    ensures AllDomains(Kept(domains, deleted))
  {
    hide DomainOk;
    if domains != [] {
      KeptDomains(domains[..|domains| - 1], deleted);
    }
  }

  /** Applying a servable delta to a file of domains gives one that shows what can be shown of the changed set. */
  lemma RewriteDomains(raw: seq<text>, delta: Delta)
    requires AllDomains(raw) && Servable(delta)
    ensures Rewritten(Some(raw), delta).Some?
    ensures var out := Rewritten(Some(raw), delta).value;
            AllDomains(out) && FileSet(out) == Visible(Apply(delta, FileSet(raw)))
  {
    hide DomainOk, Domains, AllNormal, NormalSet, Readable, PlainLines, WithoutHash;
    DomainFile(raw);
    WithoutHashDomains(raw);
    DomainsNormal(delta.added);
    DomainsNormal(delta.deleted);
    RewriteMeaning(raw, delta);
    KeptDomains(Domains(raw), Elems(delta.deleted));
    var kept := Kept(Domains(raw), Elems(delta.deleted));
    var rest := Sorted(Elems(delta.added) - Elems(kept) - Elems(delta.deleted));
    var out := kept + rest;
    assert Rewritten(Some(raw), delta).value == out;
    forall i | 0 <= i < |out| ensures DomainOk(out[i]) {
      if i >= |kept| {
        assert rest[i - |kept|] in Elems(rest);
        ElemIsDomain(delta.added, out[i]);
      }
    }
    FileVisible(out);
  }

  /** The rewritten file shows exactly the changed set if and only if no added domain has '#' in front. */
  lemma RewriteExactly(raw: seq<text>, delta: Delta)
    requires AllDomains(raw) && Servable(delta)
    ensures Rewritten(Some(raw), delta).Some?
    ensures FileSet(Rewritten(Some(raw), delta).value) == Apply(delta, FileSet(raw)) <==> PlainLines(delta.added)
  {
    hide DomainOk, Domains, Rewritten, NetForm;
    RewriteDomains(raw, delta);
    FileIsVisible(raw);
    var s := FileSet(raw);
    forall i | 0 <= i < |delta.added| ensures delta.added[i] in Apply(delta, s) && delta.added[i] != [] {
      DomainNotEmpty(delta.added[i]);
    }
    if !PlainLines(delta.added) {
      var i :| 0 <= i < |delta.added| && !PlainDomain(delta.added[i]);
      assert delta.added[i] !in Visible(Apply(delta, s));
    } else {
      forall d | d in Apply(delta, s) ensures d in Visible(Apply(delta, s)) {
        assert d in s ==> d in Visible(s);
      }
    }
  }

  lemma ElemIsDomain(values: seq<text>, d: text)
    requires AllDomains(values) && d in Elems(values)
    ensures DomainOk(d)
  {
  }

  /** A transfer off the wire; an announced serial 0 is the opening SOA's serial. */
  ghost predicate GoodInput(soa: Option<u32>, envs: seq<Envelope>) {
    && WireTransfer(Flatten(envs))
    && (soa == Some(0) && Flatten(envs) != [] && Flatten(envs)[0].Soa? ==> Flatten(envs)[0].serial == 0)
  }

  /** What Received delivers when it delivers a delta. */
  lemma ReceivedIs(envs: seq<Envelope>, zone: text, start: u32, upstream: u32, limit: nat)
    requires ZoneOk(zone) && Received(envs, zone, start, upstream, limit).Ok?
    requires Received(envs, zone, start, upstream, limit).value.Some?
    ensures var records, delta := Flatten(envs), Received(envs, zone, start, upstream, limit).value.value;
            && (delta.full ==>
                  && records != [] && records[0].Soa? && delta.staged.Some?
                  && StreamAll(records[1..], zone, records[0].serial).Ok?
                  && delta.staged.value == StreamAll(records[1..], zone, records[0].serial).value.lines)
            && (!delta.full ==> ParseTransfer(records, zone, start) == Ok(Some(delta)))
  {
    hide Flatten, StreamAll, IsName, OverLimit, ParseChain, ToLower, Fqdn;
    ZoneText(zone);
  }

  lemma CacheGrows(deltas: seq<Delta>, pubs: seq<Publication>, p: Publication)
    requires CacheOk(deltas, pubs)
    ensures CacheOk(deltas, pubs + [p])
  {
    hide Servable, Effect;
    forall k | 0 <= k < |deltas| ensures CachedExactly(deltas[k], pubs + [p]) {
      assert CachedExactly(deltas[k], pubs);
      if j: nat :| Between(deltas[k], pubs, j) {
        assert Between(deltas[k], pubs + [p], j);
      }
    }
  }

  /** A published increment enters the cache, and the oldest leaves it when it is full. */
  lemma CacheAppends(deltas: seq<Delta>, d: Delta, pubs: seq<Publication>, p: Publication)
    requires CacheOk(deltas, pubs) && Servable(d) && d.toSerial == p.serial
    requires pubs != [] ==> Between(d, pubs + [p], |pubs| - 1)
    ensures CacheOk(KeepLast(deltas + [d], CACHE), pubs + [p])
  {
    hide Servable, Between;
    CacheGrows(deltas, pubs, p);
    var all := deltas + [d];
    assert CachedExactly(d, pubs + [p]);
    assert forall k :: 0 <= k < |all| ==> CachedExactly(all[k], pubs + [p]);
    var kept := KeepLast(all, CACHE);
    forall k | 0 <= k < |kept| ensures CachedExactly(kept[k], pubs + [p]) {
      assert kept[k] == all[k + |all| - |kept|];
    }
  }

  /** Publishing fails after the raw file was replaced. */
  predicate BreaksAfterRaw(failure: Failure) {
    failure.CdbRename? || failure.ManifestRename? || failure.StateSave?
  }

  /** This delta is what the poll receives, and it is newer than what the secondary has. */
  ghost predicate Delivers(files: Files, state: State, zone: text, limit: nat, soa: u32, envs: seq<Envelope>,
                           delta: Delta) {
    && SerialGreater(soa, StartSerial(files, state)) && WireTransfer(Flatten(envs))
    && Received(envs, zone, StartSerial(files, state), soa, limit) == Ok(Some(delta))
    && (delta.full || files.raw.Some?)
  }

  /** Delivered deltas: staged lines of domains, or a servable increment from the current serial. */
  lemma DeliveredDomains(files: Files, state: State, zone: text, limit: nat, soa: u32, envs: seq<Envelope>,
                         delta: Delta)
    requires ZoneOk(zone) && Delivers(files, state, zone, limit, soa, envs, delta)
    ensures delta.full ==> delta.staged.Some? && AllDomains(delta.staged.value)
    ensures !delta.full ==> Servable(delta) && delta.fromSerial == StartSerial(files, state)
  {
    hide ZoneOk, Received, AllDomains, StreamAll, Flatten, WireTransfer, ParseTransfer, Servable;
    ReceivedIs(envs, zone, StartSerial(files, state), soa, limit);
    var records := Flatten(envs);
    if delta.full {
      WireTail(records);
      StagedDomains(records[1..], zone, records[0].serial);
    } else {
      ParsedServable(records, zone, StartSerial(files, state));
    }
  }

  /** The file staged for a delivered delta holds exactly what the delta makes of the old one. */
  lemma StagedEffect(files: Files, delta: Delta)
    requires files.raw.Some? ==> AllDomains(files.raw.value)
    requires delta.full ==> delta.staged.Some? && AllDomains(delta.staged.value)
    requires !delta.full ==> files.raw.Some? && Servable(delta)
    ensures StagedRaw(files, delta).Some? && AllDomains(StagedRaw(files, delta).value)
    ensures FileSet(StagedRaw(files, delta).value) == Effect(delta, RawSet(files))
  {
    hide AllDomains, Domains, Rewritten, Servable, Apply, Visible;
    if delta.full {
      FileVisible(delta.staged.value);
    } else {
      RewriteDomains(files.raw.value, delta);
    }
  }

  /**
   * One poll that is delivered a delta: unless nothing was renamed, the raw file holds the delta's effect,
   * and only a poll without failure moves the state.
   */
  lemma StepEffect(files: Files, state: State, zone: text, limit: nat, soa: u32, envs: seq<Envelope>,
                   failure: Failure, delta: Delta)
    requires ZoneOk(zone) && limit > 0 && (files.raw.Some? ==> AllDomains(files.raw.value))
    requires Delivers(files, state, zone, limit, soa, envs, delta)
    ensures var (files', state', outcome) := SyncStep(files, state, zone, limit, Some(soa), envs, failure);
            && (BreaksAfterRaw(failure) || failure.NoFailure? ==>
                  && files'.raw.Some? && AllDomains(files'.raw.value)
                  && FileSet(files'.raw.value) == Effect(delta, RawSet(files)))
            && (BreaksAfterRaw(failure) ==> outcome.Failed? && state' == state && files'.saved == files.saved)
            && (failure.NoFailure? ==> outcome.Published? && state'.serial == soa)
            && (failure.RawRename? ==> outcome.Failed? && state' == state && files' == files)
  {
    hide Received, AllDomains, FileSet, Domains, Readable, StagedRaw, Effect, RawSet, WireTransfer, ZoneOk, Servable;
    DeliveredDomains(files, state, zone, limit, soa, envs, delta);
    StagedEffect(files, delta);
    FileVisible(StagedRaw(files, delta).value);
  }

  /** The increment mentions every domain in which the raw file differs from the last publication. */
  ghost predicate HealsHere(files: Files, pubs: seq<Publication>, delta: Delta) {
    delta.full || (pubs != [] && Differ(RawSet(files), pubs[|pubs| - 1].domains) <= Mentions(delta))
  }

  /** In a settled secondary every increment heals, as there is nothing to heal. */
  lemma SettledHeals(files: Files, pubs: seq<Publication>, delta: Delta)
    requires Settled(files, pubs) && (delta.full || files.raw.Some?)
    ensures HealsHere(files, pubs, delta)
  {
    hide FileSet;
  }

  /** What this poll is delivered, if anything, heals. */
  ghost predicate Heals(files: Files, state: State, pubs: seq<Publication>, zone: text, maxRecords: int,
                        soa: u32, envs: seq<Envelope>) {
    forall delta :: Delivers(files, state, zone, Limit(maxRecords), soa, envs, delta) ==> HealsHere(files, pubs, delta)
  }

  lemma HealsDelivered(files: Files, state: State, pubs: seq<Publication>, zone: text, maxRecords: int,
                       soa: u32, envs: seq<Envelope>, delta: Delta)
    requires Delivers(files, state, zone, Limit(maxRecords), soa, envs, delta)
    ensures Heals(files, state, pubs, zone, maxRecords, soa, envs) <==> HealsHere(files, pubs, delta)
  {
    hide HealsHere, Received, WireTransfer;
  }

  function Limit(maxRecords: int): (limit: nat)
    ensures limit > 0
  {
    if maxRecords <= 0 then 10_000_000 else maxRecords
  }

  /** The publications after one poll: one more when it publishes. */
  ghost function Grown(files: Files, state: State, pubs: seq<Publication>, zone: text, maxRecords: int,
                       soa: u32, envs: seq<Envelope>, failure: Failure): seq<Publication> {
    var (files', _, outcome) := SyncStep(files, state, zone, maxRecords, Some(soa), envs, failure);
    if outcome.Published? then
      pubs + [Publication(soa, RawSet(files'), Heals(files, state, pubs, zone, maxRecords, soa, envs))]
    else pubs
  }

  /** One poll, whichever step fails, keeps the secondary sound; one that publishes leaves it consistent. */
  lemma SyncKeepsSound(files: Files, state: State, pubs: seq<Publication>, zone: text, maxRecords: int,
                       soa: u32, envs: seq<Envelope>, failure: Failure)
    requires Sound(files, state, pubs) && ZoneOk(zone) && GoodInput(Some(soa), envs)
    ensures var (files', state', outcome) := SyncStep(files, state, zone, maxRecords, Some(soa), envs, failure);
            var pubs' := Grown(files, state, pubs, zone, maxRecords, soa, envs, failure);
            && Sound(files', state', pubs')
            && (outcome.Published? ==> Consistent(files', state', pubs') && files'.raw.Some?)
            && (!outcome.Published? && !BreaksAfterRaw(failure) ==> files' == files && state' == state)
            && (outcome.Published? ==> pubs == [] || SerialGreater(soa, pubs[|pubs| - 1].serial))
  {
    hide SyncStep, Sound, Consistent, Delivers, BreaksAfterRaw, ZoneOk, Heals, WireTransfer, RawSet;
    if delta :| Delivers(files, state, zone, Limit(maxRecords), soa, envs, delta) {
      DeliveredKeeps(files, state, pubs, zone, maxRecords, soa, envs, failure, delta);
    } else {
      NothingDelivered(files, state, zone, maxRecords, soa, envs, failure);
    }
  }

  /** Without a delivered delta a poll changes nothing. */
  lemma NothingDelivered(files: Files, state: State, zone: text, maxRecords: int, soa: u32,
                         envs: seq<Envelope>, failure: Failure)
    requires WireTransfer(Flatten(envs))
    requires !exists delta :: Delivers(files, state, zone, Limit(maxRecords), soa, envs, delta)
    ensures SyncStep(files, state, zone, maxRecords, Some(soa), envs, failure).0 == files
    ensures SyncStep(files, state, zone, maxRecords, Some(soa), envs, failure).1 == state
    ensures !SyncStep(files, state, zone, maxRecords, Some(soa), envs, failure).2.Published?
  {
    hide Received, WireTransfer, AllNormal, NormalSet, Readable, Domains;
    var start := StartSerial(files, state);
    if SerialGreater(soa, start) {
      var r := Received(envs, zone, start, soa, Limit(maxRecords));
      if r.Ok? && r.value.Some? {
        assert !Delivers(files, state, zone, Limit(maxRecords), soa, envs, r.value.value);
        assert StagedRaw(files, r.value.value).None?;
      }
    }
  }

  lemma DeliveredKeeps(files: Files, state: State, pubs: seq<Publication>, zone: text, maxRecords: int,
                       soa: u32, envs: seq<Envelope>, failure: Failure, delta: Delta)
    requires Sound(files, state, pubs) && ZoneOk(zone) && GoodInput(Some(soa), envs)
    requires Delivers(files, state, zone, Limit(maxRecords), soa, envs, delta)
    ensures var (files', state', outcome) := SyncStep(files, state, zone, maxRecords, Some(soa), envs, failure);
            var pubs' := Grown(files, state, pubs, zone, maxRecords, soa, envs, failure);
            && Sound(files', state', pubs')
            && (outcome.Published? ==> Consistent(files', state', pubs') && files'.raw.Some?)
            && (!outcome.Published? && !BreaksAfterRaw(failure) ==> files' == files && state' == state)
            && (pubs == [] || SerialGreater(soa, pubs[|pubs| - 1].serial))
  {
    hide Received, WireTransfer, ZoneOk, Domains, CacheOk, Servable, AllDomains, StagedRaw, Readable, FileSet;
    hide Consistent, Effect, Delivers, Heals, GoodInput, Publish, Visible;
    var limit := Limit(maxRecords);
    SameStep(files, state, zone, maxRecords, soa, envs, failure);
    StepEffect(files, state, zone, limit, soa, envs, failure, delta);
    NewerThanLast(files, state, pubs, zone, limit, soa, envs, delta);
    if failure.NoFailure? {
      PublishKeeps(files, state, pubs, zone, maxRecords, soa, envs, delta);
    }
  }

  lemma SameStep(files: Files, state: State, zone: text, maxRecords: int, soa: u32, envs: seq<Envelope>,
                 failure: Failure)
    ensures SyncStep(files, state, zone, maxRecords, Some(soa), envs, failure)
         == SyncStep(files, state, zone, Limit(maxRecords), Some(soa), envs, failure)
  {
    hide Received, Publish, NextState;
  }

  lemma NewerThanLast(files: Files, state: State, pubs: seq<Publication>, zone: text, limit: nat, soa: u32,
                      envs: seq<Envelope>, delta: Delta)
    requires Sound(files, state, pubs) && Delivers(files, state, zone, limit, soa, envs, delta)
    ensures pubs != [] ==> StartSerial(files, state) == state.serial == pubs[|pubs| - 1].serial
    ensures pubs == [] || SerialGreater(soa, pubs[|pubs| - 1].serial)
  {
    hide Received, WireTransfer, CacheOk, AllDomains, Visible;
  }

  /** Publishing a delivered delta without failure leaves a consistent secondary with one more publication. */
  lemma PublishKeeps(files: Files, state: State, pubs: seq<Publication>, zone: text, maxRecords: int, soa: u32,
                     envs: seq<Envelope>, delta: Delta)
    requires Sound(files, state, pubs) && ZoneOk(zone) && GoodInput(Some(soa), envs)
    requires Delivers(files, state, zone, Limit(maxRecords), soa, envs, delta)
    ensures var (files', state', outcome) := SyncStep(files, state, zone, Limit(maxRecords), Some(soa), envs,
                                                      NoFailure);
            var p := Publication(soa, RawSet(files'), Heals(files, state, pubs, zone, maxRecords, soa, envs));
            && outcome.Published? && files'.raw.Some?
            && Consistent(files', state', pubs + [p]) && Sound(files', state', pubs + [p])
  {
    hide Received, WireTransfer, ZoneOk, CacheOk, Servable, AllDomains, StagedRaw, FileSet, Consistent, Effect;
    hide HealsHere, Heals, Between, GoodInput, Describe, Publish, NextState, Apply, KeepLast, Visible;
    var limit := Limit(maxRecords);
    DeliveredDomains(files, state, zone, limit, soa, envs, delta);
    StagedEffect(files, delta);
    var out := StagedRaw(files, delta).value;
    PublishDescribes(files, state, delta, out, soa);
    var p := Publication(soa, FileSet(out), Heals(files, state, pubs, zone, maxRecords, soa, envs));
    var (published, total) := Publish(files, delta, NoFailure);
    var next := NextState(state, delta, soa, total.value);
    DescribesAny(published.(saved := Some(next)), next, Publication(soa, FileSet(out), true), p);
    if delta.full {
      CacheGrows(state.deltas, pubs, p);
    } else {
      NewerThanLast(files, state, pubs, zone, limit, soa, envs, delta);
      ToAnnounced(zone, soa, envs, StartSerial(files, state), limit);
      if pubs != [] {
        HealsDelivered(files, state, pubs, zone, maxRecords, soa, envs, delta);
        IncrementBetween(files, pubs, delta, p);
      }
      StoredAsIs(delta);
      CacheAppends(state.deltas, delta, pubs, p);
    }
    PublishedIsConsistent(published.(saved := Some(next)), next, pubs, p);
    ConsistentSound(published.(saved := Some(next)), next, pubs + [p]);
  }

  /** Files and state describe a publication by its serial and set. */
  lemma DescribesAny(files: Files, state: State, p: Publication, q: Publication)
    requires Describe(files, state, p) && p.serial == q.serial && p.domains == q.domains
    ensures Describe(files, state, q)
  {
    hide AllDomains, FileSet, Domains;
  }

  /** A good transfer leads to the announced serial. */
  lemma ToAnnounced(zone: text, soa: u32, envs: seq<Envelope>, start: u32, limit: nat)
    requires GoodInput(Some(soa), envs)
    requires var r := Received(envs, zone, start, soa, limit); r.Ok? && r.value.Some?
    ensures Received(envs, zone, start, soa, limit).value.value.toSerial == soa
  {
    hide Received, WireTransfer, Flatten;
    TargetAnnounced(envs, zone, start, soa, limit);
  }

  /** An increment makes two sets that files can show equal exactly when it mentions every difference. */
  lemma EffectsEqual(delta: Delta, a: set<text>, b: set<text>)
    requires !delta.full && Visible(a) == a && Visible(b) == b
    ensures Effect(delta, a) == Effect(delta, b) <==> Differ(a, b) <= Mentions(delta)
  {
    MakesEqual(delta, a, b);
    if Effect(delta, a) == Effect(delta, b) {
      forall d | d in Differ(a, b) ensures d in Mentions(delta) {
        assert d in Visible(a) || d in Visible(b);
        assert d in Effect(delta, a) <==> d in Effect(delta, b);
      }
    }
  }

  /** From the last publication an increment leads to what it makes of the raw file exactly if it heals. */
  lemma IncrementBetween(files: Files, pubs: seq<Publication>, delta: Delta, p: Publication)
    requires !delta.full && pubs != [] && files.raw.Some?
    requires Visible(pubs[|pubs| - 1].domains) == pubs[|pubs| - 1].domains
    requires delta.fromSerial == pubs[|pubs| - 1].serial && delta.toSerial == p.serial
    requires p.domains == Effect(delta, RawSet(files)) && (p.healed <==> HealsHere(files, pubs, delta))
    ensures Between(delta, pubs + [p], |pubs| - 1)
  {
    hide Effect, Differ, Mentions, Visible, FileSet;
    FileIsVisible(files.raw.value);
    EffectsEqual(delta, RawSet(files), pubs[|pubs| - 1].domains);
  }

  /** Publishing staged lines of domains leaves files and state describing them. */
  lemma PublishDescribes(files: Files, state: State, delta: Delta, out: seq<text>, serial: u32)
    requires StagedRaw(files, delta) == Some(out) && AllDomains(out)
    ensures var (published, total) := Publish(files, delta, NoFailure);
            && total.Some? && published.raw == Some(out)
            && var next := NextState(state, delta, serial, total.value);
            && Describe(published.(saved := Some(next)), next, Publication(serial, FileSet(out), true))
            && (delta.full ==> next.deltas == state.deltas)
            && (!delta.full ==> next.deltas == KeepLast(state.deltas + [delta.(staged := None)], CACHE))
  {
    hide AllDomains, Domains, Readable, StagedRaw;
    FileVisible(out);
  }

  lemma StoredAsIs(delta: Delta)
    requires Servable(delta)
    ensures delta.(staged := None) == delta
  {
    hide NetForm, AllDomains;
  }

  /**
   * What a publication that breaks off has replaced: the raw file first, then the database, then the
   * manifest, and nothing before everything staged has been checked.
   */
  lemma RenameOrder(files: Files, delta: Delta, out: seq<text>)
    requires StagedRaw(files, delta) == Some(out) && Readable(out)
    ensures Publish(files, delta, RawRename).0 == files
    ensures Publish(files, delta, CdbRename).0 == Files(Some(out), files.cdb, files.manifest, files.saved)
    ensures Publish(files, delta, ManifestRename).0 == Files(Some(out), Some(Domains(out)), files.manifest, files.saved)
    ensures forall f: Failure :: f == NoFailure || f == StateSave ==>
              Publish(files, delta, f).0 == Files(Some(out), Some(Domains(out)), Some(|Domains(out)|), files.saved)
  {
    hide StagedRaw, Domains, Readable;
  }

  /** Without a limit of its own, or with one that is not positive, a secondary takes ten million records. */
  lemma DefaultLimit(files: Files, state: State, zone: text, maxRecords: int, soa: Option<u32>, envs: seq<Envelope>,
                     failure: Failure)
    requires maxRecords <= 0
    ensures SyncStep(files, state, zone, maxRecords, soa, envs, failure)
         == SyncStep(files, state, zone, 10_000_000, soa, envs, failure)
  {
    hide Received, Publish, NextState;
  }
}
