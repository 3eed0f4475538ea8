/** Broken publications: when a retry heals them, and runs that follow the history of one upstream. */
module RpzHealing {
  import opened Basics
  import opened Bytes
  import opened Text
  import opened RpzNames
  import opened RpzRecords
  import opened RpzSerial
  import opened RpzTransfer
  import opened RpzStream
  import opened RpzFile
  import opened RpzServe
  import opened RpzApp
  import opened RpzRuns
  import opened Sorting

  // ------------------------------------------------------ retrying one break

  /** A domain a chain mentions ends as the chain last said; any other stays as it was. */
  lemma ReplayPoint(diffs: seq<Diff>, zone: text, s: set<text>, d: text)
    ensures d in Replay(diffs, zone, s) <==> if d in Changes(diffs, zone) then Changes(diffs, zone)[d] else d in s
  {
    hide Changes, Replay;
    NetIsReplay(diffs, zone, s);
  }

  lemma {:induction false} PrefixMentions(diffs: seq<Diff>, zone: text, k: nat)
    requires k <= |diffs|
    ensures Changes(diffs[..k], zone).Keys <= Changes(diffs, zone).Keys
  {
    hide Owners;
    if k == |diffs| {
      assert diffs[..k] == diffs;
    } else {
      var n := |diffs| - 1;
      PrefixMentions(diffs[..n], zone, k);
      assert diffs[..n][..k] == diffs[..k];
    }
  }

  /** Replaying a whole history over any of its intermediate snapshots still ends at its final snapshot. */
  lemma ReplayHeals(diffs: seq<Diff>, zone: text, s: set<text>, k: nat)
    requires k <= |diffs|
    ensures Replay(diffs, zone, Replay(diffs[..k], zone, s)) == Replay(diffs, zone, s)
  {
    hide Changes, Replay;
    PrefixMentions(diffs, zone, k);
    forall d ensures d in Replay(diffs, zone, Replay(diffs[..k], zone, s)) <==> d in Replay(diffs, zone, s) {
      ReplayPoint(diffs, zone, Replay(diffs[..k], zone, s), d);
      ReplayPoint(diffs, zone, s, d);
      ReplayPoint(diffs[..k], zone, s, d);
    }
  }

  /** The delta of a chain does to any set what replaying the chain does. */
  lemma NetDeltaReplays(diffs: seq<Diff>, zone: text, start: u32, soa: u32)
    ensures var delta := NetDelta(diffs, zone, start, soa);
            && !delta.full && delta.staged.None?
            && forall s :: Apply(delta, s) == Replay(diffs, zone, s)
  {
    hide Changes, Replay;
    forall s ensures Apply(NetDelta(diffs, zone, start, soa), s) == Replay(diffs, zone, s) {
      NetIsReplay(diffs, zone, s);
    }
  }

  /**
   * When a retry heals, exactly. A poll, with or without a raw file before it, breaks off behind the raw
   * rename; the restarted process still has the old serial. A retry answered in full always ends with the
   * transferred set. A retry answered by an increment ends with what the increment makes of the unbroken
   * set if and only if it mentions every domain in which the broken poll left the raw file different.
   */
  lemma RetryHealsExactly(files: Files, state: State, zone: text, limit: nat, failure: Failure,
                          soa: u32, envs: seq<Envelope>, broken: Delta, soa2: u32, envs2: seq<Envelope>, retry: Delta)
    requires ZoneOk(zone) && limit > 0 && BreaksAfterRaw(failure)
    requires Restored(files) == state && (files.raw.Some? ==> AllDomains(files.raw.value))
    requires Delivers(files, state, zone, limit, soa, envs, broken)
    requires Delivers(SyncStep(files, state, zone, limit, Some(soa), envs, failure).0, state, zone, limit, soa2,
                      envs2, retry)
    ensures var left := SyncStep(files, state, zone, limit, Some(soa), envs, failure).0;
            var (healed, healedState, outcome) := SyncStep(left, Restored(left), zone, limit, Some(soa2), envs2,
                                                           NoFailure);
            && Restored(left) == state
            && outcome.Published? && healedState.serial == soa2
            && RawSet(healed) == Effect(retry, Effect(broken, RawSet(files)))
            && (retry.full ==> retry.staged.Some? && RawSet(healed) == Visible(Elems(retry.staged.value)))
            && (!retry.full ==>
                  (RawSet(healed) == Effect(retry, RawSet(files)) <==>
                     Differ(Effect(broken, RawSet(files)), RawSet(files)) <= Mentions(retry)))
  {
    hide Delivers, AllDomains, FileSet, SyncStep, ZoneOk, Effect, Differ, Mentions, Visible, Servable;
    StepEffect(files, state, zone, limit, soa, envs, failure, broken);
    var left := SyncStep(files, state, zone, limit, Some(soa), envs, failure).0;
    StepEffect(left, state, zone, limit, soa2, envs2, NoFailure, retry);
    DeliveredDomains(left, state, zone, limit, soa2, envs2, retry);
    RawVisible(files);
    RawVisible(left);
    if retry.full {
      FullEffect(retry, RawSet(left));
    } else {
      EffectsEqual(retry, RawSet(left), RawSet(files));
    }
  }

  lemma RawVisible(files: Files)
    ensures Visible(RawSet(files)) == RawSet(files)
  {
    if files.raw.Some? {
      FileIsVisible(files.raw.value);
    }
  }

  lemma FullEffect(delta: Delta, s: set<text>)
    requires delta.full && delta.staged.Some?
    ensures Effect(delta, s) == Visible(Elems(delta.staged.value))
  {
    hide Visible;
  }

  /** A replay shows the same over what a file can show. */
  lemma VisibleReplay(diffs: seq<Diff>, zone: text, s: set<text>)
    ensures Visible(Replay(diffs, zone, Visible(s))) == Visible(Replay(diffs, zone, s))
  {
    hide Changes, Replay;
    forall d ensures d in Visible(Replay(diffs, zone, Visible(s))) <==> d in Visible(Replay(diffs, zone, s)) {
      ReplayPoint(diffs, zone, Visible(s), d);
      ReplayPoint(diffs, zone, s, d);
    }
  }

  /**
   * Crash healing along a history. If the broken poll, incremental or full, left a snapshot on the history
   * that the retry brings (the old one extended, or the same again), the retry ends where the history ends.
   */
  lemma CrashHeals(files: Files, state: State, zone: text, limit: nat, failure: Failure,
                   soa: u32, envs: seq<Envelope>, broken: Delta, soa2: u32, envs2: seq<Envelope>, diffs: seq<Diff>,
                   k: nat)
    requires ZoneOk(zone) && limit > 0 && BreaksAfterRaw(failure) && k <= |diffs|
    requires Restored(files) == state && (files.raw.Some? ==> AllDomains(files.raw.value))
    requires Delivers(files, state, zone, limit, soa, envs, broken)
    requires Effect(broken, RawSet(files)) == Visible(Replay(diffs[..k], zone, RawSet(files)))
    requires Delivers(SyncStep(files, state, zone, limit, Some(soa), envs, failure).0, state, zone, limit, soa2, envs2,
                      NetDelta(diffs, zone, state.serial, soa2))
    ensures var left := SyncStep(files, state, zone, limit, Some(soa), envs, failure).0;
            var (healed, healedState, outcome) := SyncStep(left, Restored(left), zone, limit, Some(soa2), envs2,
                                                           NoFailure);
            && Restored(left) == state && outcome.Published? && healedState.serial == soa2
            && RawSet(healed) == Visible(Replay(diffs, zone, RawSet(files)))
  {
    hide AllDomains, FileSet, Replay, SyncStep, ZoneOk, Apply, Differ, Mentions, NetDelta, Delivers, Visible;
    var retry := NetDelta(diffs, zone, state.serial, soa2);
    RetryHealsExactly(files, state, zone, limit, failure, soa, envs, broken, soa2, envs2, retry);
    NetDeltaReplays(diffs, zone, state.serial, soa2);
    ReplayHeals(diffs, zone, RawSet(files), k);
    VisibleReplay(diffs, zone, Replay(diffs[..k], zone, RawSet(files)));
  }

  /** An increment received over a chain breaks off at a snapshot of every history the chain begins. */
  lemma ChainLeavesSnapshot(diffs: seq<Diff>, k: nat, zone: text, start: u32, soa: u32, s: set<text>)
    requires k <= |diffs|
    ensures Effect(NetDelta(diffs[..k], zone, start, soa), s) == Visible(Replay(diffs[..k], zone, s))
  {
    hide NetDelta, Replay, Apply, Visible;
    NetDeltaReplays(diffs[..k], zone, start, soa);
  }

  /** The raw file after any number of broken polls, each of which got this far along the history. */
  ghost function AfterBreaks(diffs: seq<Diff>, zone: text, s: set<text>, ks: seq<nat>): set<text>
    requires forall i :: 0 <= i < |ks| ==> ks[i] <= |diffs|
  {
    if ks == [] then s
    else Replay(diffs[..ks[|ks| - 1]], zone, AfterBreaks(diffs, zone, s, ks[..|ks| - 1]))
  }

  /** However often and wherever it broke, replaying the history ends at its final snapshot. */
  lemma {:induction false} ManyBreaksHeal(diffs: seq<Diff>, zone: text, s: set<text>, ks: seq<nat>)
    requires forall i :: 0 <= i < |ks| ==> ks[i] <= |diffs|
    ensures Replay(diffs, zone, AfterBreaks(diffs, zone, s, ks)) == Replay(diffs, zone, s)
  {
    hide Replay;
    if ks != [] {
      var n := |ks| - 1;
      ManyBreaksHeal(diffs, zone, s, ks[..n]);
      ReplayHeals(diffs, zone, AfterBreaks(diffs, zone, s, ks[..n]), ks[n]);
    }
  }

  /** So an increment over the history mentions whatever such breaks left different. */
  lemma HistoryHeals(diffs: seq<Diff>, zone: text, start: u32, soa: u32, s: set<text>, ks: seq<nat>)
    requires forall i :: 0 <= i < |ks| ==> ks[i] <= |diffs|
    ensures Differ(AfterBreaks(diffs, zone, s, ks), s) <= Mentions(NetDelta(diffs, zone, start, soa))
  {
    hide Replay, NetDelta, Apply, Differ, Mentions, AfterBreaks;
    ManyBreaksHeal(diffs, zone, s, ks);
    NetDeltaReplays(diffs, zone, start, soa);
    MakesEqual(NetDelta(diffs, zone, start, soa), AfterBreaks(diffs, zone, s, ks), s);
  }

  /** A condensed history that does not heal: what it no longer mentions stays in the raw file. */
  lemma CondensedDoesNotHeal(zone: text)
    requires ZoneOk(zone) && zone != "."
    ensures var first := [Diff(1, [], 2, [RecordOf("a", zone)])];
            var condensed := [Diff(1, [], 3, [])];
            && Replay(first, zone, {}) == {"a"}
            && Replay(condensed, zone, {}) == {}
            && Replay(condensed, zone, Replay(first, zone, {})) == {"a"}
  {
    hide PolicyOwner, RecordOf, ZoneOk;
    PlainA();
    RecordOfRoundTrip("a", zone);
    var rr := RecordOf("a", zone);
    assert [rr][..0] == [];
    assert Owners([], zone) == {};
    assert Owners([rr], zone) == {"a"};
    var first, condensed := [Diff(1, [], 2, [rr])], [Diff(1, [], 3, [])];
    assert first[..0] == [] && condensed[..0] == [];
  }

  lemma PlainA()
    ensures DomainOk("a")
  {
    hide TrimSpace;
    var d: text := "a";
    SplitPiece(d, '.');
    assert (d + ".")[..1] == d;
    assert ToLower(d) == d;
  }

  // ------------------------------------------------- following one upstream

  /** An upstream zone: its first version, and the difference sequence to each later one. */
  datatype Upstream = Upstream(base: set<text>, first: u32, diffs: seq<Diff>)

  ghost function SerialOf(up: Upstream, i: nat): u32
    requires i <= |up.diffs|
  {
    if i == 0 then up.first else up.diffs[i - 1].toSerial
  }

  /** What a file can show of version i. */
  ghost function Snapshot(up: Upstream, zone: text, i: nat): set<text>
    requires i <= |up.diffs|
  {
    Visible(Replay(up.diffs[..i], zone, up.base))
  }

  /** Serials tell the versions apart, and none of them is 0, the serial of a secondary without data. */
  ghost predicate Versioned(up: Upstream) {
    && (forall i :: 0 <= i <= |up.diffs| ==> SerialOf(up, i) != 0)
    && (forall i, j :: 0 <= i < j <= |up.diffs| ==> SerialOf(up, i) != SerialOf(up, j))
  }

  /** These are the difference sequences from the version of this serial to version t, none left out or merged. */
  ghost predicate SendsDiffs(up: Upstream, zone: text, start: u32, t: nat, records: seq<RR>)
    requires t <= |up.diffs|
  {
    && records != [] && records[0].Soa? && records[0].serial == SerialOf(up, t)
    && exists i: nat :: SendsFrom(up, zone, start, i, t, records[1..])
  }

  ghost predicate SendsFrom(up: Upstream, zone: text, start: u32, i: nat, t: nat, rest: seq<RR>)
    requires t <= |up.diffs|
  {
    i <= t && SerialOf(up, i) == start && IsChain(rest, zone, start, SerialOf(up, t), up.diffs[i..t])
  }

  /** A transfer of version t: all its domains, or the sequences up to it; a stream that faults may hold anything. */
  ghost predicate Sends(up: Upstream, zone: text, start: u32, t: nat, soa: u32, envs: seq<Envelope>) {
    && t <= |up.diffs| && soa == SerialOf(up, t)
    && (!HasFault(envs) ==>
          var records := Flatten(envs);
          if IsIxfrResponse(records) then SendsDiffs(up, zone, start, t, records)
          else records != [] ==> Visible(Owners(records[1..], zone)) == Snapshot(up, zone, t))
  }

  /** Every poll of the run sees a version of this upstream, never an older one than a poll before it. */
  ghost predicate FollowsUp(up: Upstream, events: seq<Event>, versions: seq<nat>, zone: text, maxRecords: int) {
    && |versions| == |events|
    && (forall a, b :: 0 <= a <= b < |versions| ==> versions[a] <= versions[b] <= |up.diffs|)
    && forall k :: 0 <= k < |events| ==> EventSends(up, events, k, versions[k], zone, maxRecords)
  }

  ghost predicate EventSends(up: Upstream, events: seq<Event>, k: nat, t: nat, zone: text, maxRecords: int)
    requires k < |events|
  {
    events[k].Poll? && events[k].soa.Some? ==>
      var (files, state) := Run(events[..k], zone, maxRecords);
      Sends(up, zone, StartSerial(files, state), t, events[k].soa.value, events[k].envs)
  }

  /** Each publication is a version of the upstream, later than the one before it, and healed. */
  ghost predicate Numbered(up: Upstream, zone: text, pubs: seq<Publication>, nums: seq<nat>) {
    && |nums| == |pubs|
    && (forall j :: 0 <= j < |nums| ==> nums[j] <= |up.diffs| && pubs[j] == PublicationOf(up, zone, nums[j]))
    && (forall a, b :: 0 <= a < b < |nums| ==> nums[a] < nums[b])
  }

  ghost function PublicationOf(up: Upstream, zone: text, i: nat): Publication
    requires i <= |up.diffs|
  {
    Publication(SerialOf(up, i), Snapshot(up, zone, i), true)
  }

  /** The raw file shows a version k between the last published one and the last one seen. */
  ghost predicate Tracks(up: Upstream, zone: text, files: Files, pubs: seq<Publication>, nums: seq<nat>, k: nat,
                         v: nat) {
    && Numbered(up, zone, pubs, nums) && k <= v <= |up.diffs|
    && (files.raw.Some? ==> RawSet(files) == Snapshot(up, zone, k))
    && (pubs != [] ==> nums[|nums| - 1] <= k)
  }

  /** Replaying the rest of a history over what its beginning left is replaying all of it. */
  lemma {:induction false} ReplaySplit(diffs: seq<Diff>, zone: text, s: set<text>, i: nat)
    requires i <= |diffs|
    ensures Replay(diffs[i..], zone, Replay(diffs[..i], zone, s)) == Replay(diffs, zone, s)
  {
    hide Owners;
    if i == |diffs| {
      assert diffs[..i] == diffs && diffs[i..] == [];
    } else {
      var n := |diffs| - 1;
      ReplaySplit(diffs[..n], zone, s, i);
      assert diffs[i..][..n - i] == diffs[..n][i..] && diffs[..n][..i] == diffs[..i];
    }
  }

  /** The sequences from version i to version t lead from every version between to version t. */
  lemma SnapshotForward(up: Upstream, zone: text, i: nat, k: nat, t: nat)
    requires i <= k <= t <= |up.diffs|
    ensures Visible(Replay(up.diffs[i..t], zone, Snapshot(up, zone, k))) == Snapshot(up, zone, t)
  {
    hide Replay, Visible;
    var diffs := up.diffs[i..t];
    var first, mid := Replay(up.diffs[..i], zone, up.base), Replay(up.diffs[..k], zone, up.base);
    VisibleReplay(diffs, zone, mid);
    assert up.diffs[..k][..i] == up.diffs[..i] && up.diffs[..k][i..] == diffs[..k - i];
    ReplaySplit(up.diffs[..k], zone, up.base, i);
    ReplayHeals(diffs, zone, first, k - i);
    assert up.diffs[..t][..i] == up.diffs[..i] && up.diffs[..t][i..] == diffs;
    ReplaySplit(up.diffs[..t], zone, up.base, i);
  }

  /** Streaming stages the domains the records name. */
  lemma {:induction false} StreamedOwners(rs: seq<RR>, zone: text, serial: u32)
    requires StreamAll(rs, zone, serial).Ok?
    ensures Elems(StreamAll(rs, zone, serial).value.lines) == Owners(rs, zone)
  {
    hide ToLower, IsSubDomain, NormalizedOwner;
    if rs == [] {
      ElemsAppend([], []);
    } else {
      var n := |rs| - 1;
      StreamedOwners(rs[..n], zone, serial);
      var before := StreamAll(rs[..n], zone, serial).value.lines;
      if PolicyOwner(rs[n], zone).Domain? {
        ElemsAppend(before, PolicyOwner(rs[n], zone).name);
      }
    }
  }

  /** What such a transfer delivers: the snapshot of version t, or the net change up to it. */
  ghost predicate Brings(up: Upstream, zone: text, start: u32, t: nat, delta: Delta)
    requires t <= |up.diffs|
  {
    if delta.full then delta.staged.Some? && Visible(Elems(delta.staged.value)) == Snapshot(up, zone, t)
    else exists i: nat :: BringsFrom(up, zone, start, i, t, delta)
  }

  ghost predicate BringsFrom(up: Upstream, zone: text, start: u32, i: nat, t: nat, delta: Delta)
    requires t <= |up.diffs|
  {
    i <= t && SerialOf(up, i) == start && delta == NetDelta(up.diffs[i..t], zone, start, SerialOf(up, t))
  }

  lemma SentDelivers(up: Upstream, t: nat, files: Files, state: State, zone: text, limit: nat, soa: u32,
                     envs: seq<Envelope>, delta: Delta)
    requires ZoneOk(zone) && Delivers(files, state, zone, limit, soa, envs, delta)
    requires Sends(up, zone, StartSerial(files, state), t, soa, envs)
    ensures Brings(up, zone, StartSerial(files, state), t, delta)
  {
    hide Flatten, Snapshot, SerialOf, NetDelta, IsChain, WireTransfer, OverLimit, ZoneOk, StreamAll, Visible, Owners;
    hide SerialGreater, IsIxfrResponse, Interpret;
    var start, records := StartSerial(files, state), Flatten(envs);
    ReceivedIs(envs, zone, start, soa, limit);
    TargetIsOpening(records, zone, start);
    KindIs(records, zone, start, delta);
    if delta.full {
      StreamedOwners(records[1..], zone, records[0].serial);
    } else {
      var i: nat :| SendsFrom(up, zone, start, i, t, records[1..]);
      ParsedIs(records, zone, start, up.diffs[i..t], delta);
      assert BringsFrom(up, zone, start, i, t, delta);
    }
  }

  /** Increments come of incremental responses, full deltas of any other. */
  lemma KindIs(records: seq<RR>, zone: text, start: u32, delta: Delta)
    requires ZoneOk(zone) && Interpret(records, zone, start) == Ok(Some(delta))
    ensures delta.full <==> !IsIxfrResponse(records)
  {
    hide Changes, ParseChain, StreamAll, ToLower, Fqdn, OwnersOk, Owners, SerialGreater;
  }

  lemma ParsedIs(records: seq<RR>, zone: text, start: u32, diffs: seq<Diff>, delta: Delta)
    requires ZoneOk(zone) && ParseTransfer(records, zone, start) == Ok(Some(delta)) && !delta.full
    requires records != [] && records[0].Soa? && IsChain(records[1..], zone, start, records[0].serial, diffs)
    ensures delta == NetDelta(diffs, zone, start, records[0].serial)
  {
    hide ParseChain, OwnersOk, Owners, SerialGreater, NetDelta, ToLower, Fqdn, IsChain, IsName;
    ZoneText(zone);
    ChainParses(records, zone, records[0].serial, start, 1, diffs);
  }

  lemma SnapshotVisible(up: Upstream, zone: text, i: nat)
    requires i <= |up.diffs|
    ensures Visible(Snapshot(up, zone, i)) == Snapshot(up, zone, i)
  {
    hide Replay;
  }

  /** An increment from version i leads from any version between to version t, so it heals. */
  lemma IncrementBrings(up: Upstream, zone: text, start: u32, i: nat, k: nat, t: nat, delta: Delta)
    requires i <= k <= t <= |up.diffs| && BringsFrom(up, zone, start, i, t, delta)
    ensures !delta.full
    ensures Effect(delta, Snapshot(up, zone, k)) == Snapshot(up, zone, t)
    ensures Differ(Snapshot(up, zone, k), Snapshot(up, zone, i)) <= Mentions(delta)
  {
    hide NetDelta, Replay, Snapshot, Visible, SerialOf, Differ, Mentions, Apply;
    NetDeltaReplays(up.diffs[i..t], zone, start, SerialOf(up, t));
    SnapshotForward(up, zone, i, k, t);
    SnapshotForward(up, zone, i, i, t);
    SnapshotVisible(up, zone, k);
    SnapshotVisible(up, zone, i);
    EffectsEqual(delta, Snapshot(up, zone, k), Snapshot(up, zone, i));
  }

  /** Whatever this upstream delivers leads to version t, and heals. */
  lemma DeliveredHeals(up: Upstream, files: Files, state: State, pubs: seq<Publication>, nums: seq<nat>, k: nat, v: nat,
                       t: nat, zone: text, limit: nat, soa: u32, envs: seq<Envelope>, delta: Delta)
    requires Sound(files, state, pubs) && Versioned(up) && Tracks(up, zone, files, pubs, nums, k, v)
    requires v <= t <= |up.diffs| && soa == SerialOf(up, t)
    requires Delivers(files, state, zone, limit, soa, envs, delta)
    requires Brings(up, zone, StartSerial(files, state), t, delta)
    ensures Effect(delta, RawSet(files)) == Snapshot(up, zone, t) && HealsHere(files, pubs, delta)
    ensures pubs != [] ==> nums[|nums| - 1] < t
  {
    hide Received, WireTransfer, CacheOk, AllDomains, Visible, Snapshot, RawSet, Effect, NetDelta, Differ, Mentions;
    hide SerialOf;
    var start := StartSerial(files, state);
    NewerThanLast(files, state, pubs, zone, limit, soa, envs, delta);
    NotNewerThanItself(soa);
    if delta.full {
      FullEffect(delta, RawSet(files));
    } else {
      var i: nat :| BringsFrom(up, zone, start, i, t, delta);
      assert start != 0;
      assert i == nums[|nums| - 1];
      IncrementBrings(up, zone, start, i, k, t, delta);
    }
  }

  lemma NotNewerThanItself(a: u32)
    ensures !SerialGreater(a, a)
  {
  }

  /** One event of a run that follows the upstream. */
  lemma StepTracks(up: Upstream, files: Files, state: State, pubs: seq<Publication>, nums: seq<nat>, k: nat, v: nat,
                   e: Event, t: nat, zone: text, maxRecords: int) returns (nums': seq<nat>, k': nat)
    requires ZoneOk(zone) && Versioned(up) && Sound(files, state, pubs) && GoodEvent(e)
    requires Tracks(up, zone, files, pubs, nums, k, v) && v <= t <= |up.diffs|
    requires e.Poll? && e.soa.Some? ==> Sends(up, zone, StartSerial(files, state), t, e.soa.value, e.envs)
    ensures Tracks(up, zone, Step(files, state, e, zone, maxRecords).0, Next(files, state, pubs, e, zone, maxRecords),
                   nums', k', t)
  {
    hide SyncStep, Delivers, Snapshot, Visible, RawSet, Heals, SerialOf, HealsHere, CacheOk, WireTransfer, Effect;
    hide ZoneOk, FileSet, AllDomains, Versioned, HasFault, IsIxfrResponse, Numbered;
    nums', k' := nums, k;
    if e.Poll? && e.soa.Some? {
      var soa, limit := e.soa.value, Limit(maxRecords);
      assert e.soa == Some(soa);
      if delta :| Delivers(files, state, zone, limit, soa, e.envs, delta) {
        SentDelivers(up, t, files, state, zone, limit, soa, e.envs, delta);
        DeliveredHeals(up, files, state, pubs, nums, k, v, t, zone, limit, soa, e.envs, delta);
        HealsDelivered(files, state, pubs, zone, maxRecords, soa, e.envs, delta);
        SameStep(files, state, zone, maxRecords, soa, e.envs, e.failure);
        StepEffect(files, state, zone, limit, soa, e.envs, e.failure, delta);
        if e.failure.NoFailure? {
          var after := SyncStep(files, state, zone, limit, Some(soa), e.envs, e.failure).0;
          RawSetIs(after);
          nums', k' := nums + [t], t;
          TracksPublished(up, zone, after, pubs, nums, t);
          assert Next(files, state, pubs, e, zone, maxRecords) == pubs + [PublicationOf(up, zone, t)];
        } else if BreaksAfterRaw(e.failure) {
          k' := t;
          RawSetIs(SyncStep(files, state, zone, limit, Some(soa), e.envs, e.failure).0);
        }
      } else {
        NothingDelivered(files, state, zone, maxRecords, soa, e.envs, e.failure);
      }
    } else {
      NothingAsked(files, state, e, zone, maxRecords);
    }
  }

  lemma TracksPublished(up: Upstream, zone: text, files: Files, pubs: seq<Publication>, nums: seq<nat>, t: nat)
    requires Numbered(up, zone, pubs, nums) && t <= |up.diffs| && RawSet(files) == Snapshot(up, zone, t)
    requires pubs != [] ==> nums[|nums| - 1] < t
    ensures Tracks(up, zone, files, pubs + [PublicationOf(up, zone, t)], nums + [t], t, t)
  {
    hide Snapshot, RawSet, SerialOf;
  }

  lemma NothingAsked(files: Files, state: State, e: Event, zone: text, maxRecords: int)
    requires e.Poll? ==> e.soa.None?
    ensures Step(files, state, e, zone, maxRecords).0 == files
  {
    hide Received, Publish;
  }

  lemma RawSetIs(files: Files)
    requires files.raw.Some?
    ensures RawSet(files) == FileSet(files.raw.value)
  {
    hide FileSet;
  }

  /**
   * Along one upstream history every publication heals, whatever breaks and restarts lie between: each is
   * a version of the upstream, later than the one before, and the raw file shows a version not before it.
   */
  lemma {:induction false} UpstreamRun(up: Upstream, events: seq<Event>, versions: seq<nat>, zone: text,
                                       maxRecords: int)
      returns (nums: seq<nat>, k: nat)
    requires ZoneOk(zone) && Versioned(up) && GoodInputs(events)
    requires FollowsUp(up, events, versions, zone, maxRecords)
    ensures var v := if versions == [] then 0 else versions[|versions| - 1];
            Tracks(up, zone, Run(events, zone, maxRecords).0, History(events, zone, maxRecords), nums, k, v)
  {
    hide ZoneOk, Versioned, GoodEvent, Sends, Sound, Step, Next, Numbered, RawSet, Snapshot, StartSerial, MovesForward;
    if events == [] {
      nums, k := [], 0;
      NoneNumbered(up, zone);
    } else {
      var n := |events| - 1;
      var front := events[..n];
      FollowsFront(up, events, versions, zone, maxRecords);
      nums, k := UpstreamRun(up, front, versions[..n], zone, maxRecords);
      RunSound(front, zone, maxRecords);
      var (files, state) := Run(front, zone, maxRecords);
      assert EventSends(up, events, n, versions[n], zone, maxRecords);
      var v := if n == 0 then 0 else versions[n - 1];
      nums, k := StepTracks(up, files, state, History(front, zone, maxRecords), nums, k, v, events[n], versions[n],
                            zone, maxRecords);
    }
  }

  lemma NoneNumbered(up: Upstream, zone: text)
    ensures Numbered(up, zone, [], [])
  {
  }

  lemma FollowsFront(up: Upstream, events: seq<Event>, versions: seq<nat>, zone: text, maxRecords: int)
    requires FollowsUp(up, events, versions, zone, maxRecords) && events != []
    ensures FollowsUp(up, events[..|events| - 1], versions[..|events| - 1], zone, maxRecords)
  {
    hide Sends, Run;
    var n := |events| - 1;
    forall k | 0 <= k < n ensures EventSends(up, events[..n], k, versions[..n][k], zone, maxRecords) {
      assert events[..n][..k] == events[..k];
      assert EventSends(up, events, k, versions[k], zone, maxRecords);
    }
  }

  /** So the publications have different serials, and all of them healed. */
  lemma NumberedDiffers(up: Upstream, zone: text, pubs: seq<Publication>, nums: seq<nat>)
    requires Versioned(up) && Numbered(up, zone, pubs, nums)
    ensures DistinctSerials(pubs) && AllHealed(pubs)
  {
    hide Snapshot, SerialOf;
  }

  /**
   * End to end. After a run along one upstream history, with failing steps, breaks and restarts, a client
   * that holds any earlier publication and completes one exchange ends with exactly the current one, which
   * is a version of the upstream, if and only if it is answered from the cache or no break has left a later
   * version in the raw file.
   */
  lemma UpstreamConverges(up: Upstream, events: seq<Event>, versions: seq<nat>, zone: text, maxRecords: int, j: nat,
                          clientFiles: Files, clientState: State, clientMax: nat, request: Request,
                          envs: seq<Envelope>) returns (i: nat)
    requires ZoneOk(zone) && zone != "." && Versioned(up) && GoodInputs(events)
    requires FollowsUp(up, events, versions, zone, maxRecords)
    requires var pubs := History(events, zone, maxRecords);
             && j < |pubs| && Holds(clientFiles, clientState, pubs[j])
             && SerialGreater(Current(pubs).serial, pubs[j].serial)
    requires request == AskFull || request == AskSince(clientState.serial)
    requires ServerAnswers(Run(events, zone, maxRecords), request, zone, envs)
    requires 0 < clientMax && |Flatten(envs)| <= clientMax
    ensures var (files, state) := Run(events, zone, maxRecords);
            var pubs := History(events, zone, maxRecords);
            && i <= |up.diffs| && Current(pubs) == PublicationOf(up, zone, i)
            && (ExchangeReaches(clientFiles, clientState, zone, clientMax, Current(pubs), envs) <==>
                  FromCache(state, request) || Settled(files, pubs))
  {
    hide Run, History, ZoneOk, Flatten, GoodInputs, ExchangeReaches, Holds, ServerAnswers, FollowsUp, Versioned;
    hide FromCache, Settled, PublicationOf, RawSet, Snapshot, SerialGreater, DistinctSerials;
    var nums, k := UpstreamRun(up, events, versions, zone, maxRecords);
    var pubs := History(events, zone, maxRecords);
    NumberedDiffers(up, zone, pubs, nums);
    i := nums[|nums| - 1];
    DownstreamConverges(events, zone, maxRecords, j, clientFiles, clientState, clientMax, request, envs);
  }
}
