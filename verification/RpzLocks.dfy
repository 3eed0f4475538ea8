/**
 * Publishing and serving at the same time: one publisher and any number of full transfers as a state
 * machine over the two read-write locks, the renamed file and the pinned file handles.
 */
module RpzLocks {
  import opened Basics
  import opened Bytes
  import opened Text
  import opened RpzRecords
  import opened RpzNames
  import opened RpzStream
  import opened RpzFile
  import opened RpzServe

  /** A published pair: serial and lines of the raw file. */
  datatype Version = Version(serial: u32, lines: seq<text>)

  /**
   * Where the publisher stands. It takes the publication lock, renames raw file, database and manifest,
   * takes the state lock, saves, sets the state in memory, and releases both locks.
   */
  datatype Publisher =
    | Idle
    | Locked(next: Version) | RawRenamed(next: Version) | CdbRenamed(next: Version) | ManifestRenamed(next: Version)
    | StateLocked(next: Version) | StateSaved(next: Version) | StateSet(next: Version) | StateReleased(next: Version)

  /** Where a full transfer stands; clean records whether the raw file was the last publication's when it was pinned. */
  datatype Reader =
    | HoldsPublication
    | HoldsBoth
    | ReadSerial(serial: u32)
    | ReleasedState(serial: u32)
    | Opened(version: Version, clean: bool)
    | Streaming(version: Version, clean: bool, sent: nat, out: seq<RR>)
    | Finished(version: Version, clean: bool, out: seq<RR>)

  /** Dirty: an aborted publication replaced the raw file without reaching the state. */
  datatype System = System(raw: seq<text>, cdb: seq<text>, saved: u32, serial: u32, publisher: Publisher,
                           readers: map<nat, Reader>, versions: seq<Version>, dirty: bool)

  datatype Action =
    | LockPublication(next: Version) | RenameRaw | RenameCdb | RenameManifest
    | LockState | SaveState | SetState | ReleaseState | ReleasePublication | Abort
    | ReaderLock(id: nat) | ReaderLockState(id: nat) | ReaderReadSerial(id: nat) | ReaderReleaseState(id: nat)
    | ReaderOpen(id: nat) | ReaderRelease(id: nat) | ReaderSend(id: nat)

  predicate ReadsPublication(r: Reader) {
    r.HoldsPublication? || r.HoldsBoth? || r.ReadSerial? || r.ReleasedState? || r.Opened?
  }

  predicate ReadsState(r: Reader) {
    r.HoldsBoth? || r.ReadSerial?
  }

  predicate WritesPublication(p: Publisher) {
    !p.Idle?
  }

  predicate WritesState(p: Publisher) {
    p.StateLocked? || p.StateSaved? || p.StateSet?
  }

  ghost predicate Enabled(s: System, a: Action) {
    match a
    case LockPublication(_) => s.publisher.Idle? && forall id :: id in s.readers ==> !ReadsPublication(s.readers[id])
    case RenameRaw => s.publisher.Locked?
    case RenameCdb => s.publisher.RawRenamed?
    case RenameManifest => s.publisher.CdbRenamed?
    case LockState => s.publisher.ManifestRenamed? && forall id :: id in s.readers ==> !ReadsState(s.readers[id])
    case SaveState => s.publisher.StateLocked?
    case SetState => s.publisher.StateSaved?
    case ReleaseState => s.publisher.StateSet?
    case ReleasePublication => s.publisher.StateReleased?
    case Abort => s.publisher.Locked? || s.publisher.RawRenamed? || s.publisher.CdbRenamed? || s.publisher.StateLocked?
    case ReaderLock(id) => id !in s.readers && !WritesPublication(s.publisher)
    case ReaderLockState(id) => id in s.readers && s.readers[id].HoldsPublication? && !WritesState(s.publisher)
    case ReaderReadSerial(id) => id in s.readers && s.readers[id].HoldsBoth?
    case ReaderReleaseState(id) => id in s.readers && s.readers[id].ReadSerial?
    case ReaderOpen(id) => id in s.readers && s.readers[id].ReleasedState?
    case ReaderRelease(id) => id in s.readers && s.readers[id].Opened?
    case ReaderSend(id) => id in s.readers && s.readers[id].Streaming?
  }

  /** The next thing a streaming transfer sends: a line's record, or the closing SOA. */
  ghost function Send(r: Reader, zone: text): Reader
    requires r.Streaming?
  {
    if r.sent < |r.version.lines| then
      Streaming(r.version, r.clean, r.sent + 1, r.out + LineRecord(r.version.lines[r.sent], zone))
    else Finished(r.version, r.clean, r.out + [Soa(zone, r.version.serial)])
  }

  /** The lines of the last publication. */
  function LastLines(s: System): seq<text> {
    if s.versions == [] then [] else s.versions[|s.versions| - 1].lines
  }

  ghost function Do(s: System, a: Action, zone: text): System
    requires Enabled(s, a)
  {
    match a
    case LockPublication(next) => s.(publisher := Locked(next))
    case RenameRaw => s.(raw := s.publisher.next.lines, publisher := RawRenamed(s.publisher.next))
    case RenameCdb => s.(cdb := s.publisher.next.lines, publisher := CdbRenamed(s.publisher.next))
    case RenameManifest => s.(publisher := ManifestRenamed(s.publisher.next))
    case LockState => s.(publisher := StateLocked(s.publisher.next))
    case SaveState => s.(saved := s.publisher.next.serial, publisher := StateSaved(s.publisher.next))
    case SetState =>
      s.(serial := s.publisher.next.serial, publisher := StateSet(s.publisher.next),
         versions := s.versions + [s.publisher.next], dirty := false)
    case ReleaseState => s.(publisher := StateReleased(s.publisher.next))
    case ReleasePublication => s.(publisher := Idle)
    case Abort => s.(publisher := Idle, dirty := s.dirty || !s.publisher.Locked?)
    case ReaderLock(id) => s.(readers := s.readers[id := HoldsPublication])
    case ReaderLockState(id) => s.(readers := s.readers[id := HoldsBoth])
    case ReaderReadSerial(id) => s.(readers := s.readers[id := ReadSerial(s.serial)])
    case ReaderReleaseState(id) => s.(readers := s.readers[id := ReleasedState(s.readers[id].serial)])
    case ReaderOpen(id) =>
      s.(readers := s.readers[id := Opened(Version(s.readers[id].serial, s.raw), s.raw == LastLines(s))])
    case ReaderRelease(id) =>
      var r := s.readers[id];
      s.(readers := s.readers[id := Streaming(r.version, r.clean, 0, [Soa(zone, r.version.serial)])])
    case ReaderSend(id) => s.(readers := s.readers[id := Send(s.readers[id], zone)])
  }

  function Start(first: Version): System {
    System(first.lines, first.lines, first.serial, first.serial, Idle, map[], [first], false)
  }

  // ------------------------------------------------------------- invariant

  /** The serial is that of some publication, and the lines too exactly when the transfer is clean. */
  ghost predicate PinnedOk(s: System, v: Version, clean: bool) {
    exists k :: 0 <= k < |s.versions| && s.versions[k].serial == v.serial && (clean <==> s.versions[k].lines == v.lines)
  }

  ghost predicate ReaderOk(s: System, r: Reader, zone: text) {
    match r
    case HoldsPublication => s.publisher.Idle?
    case HoldsBoth => s.publisher.Idle?
    case ReadSerial(serial) => s.publisher.Idle? && serial == s.serial
    case ReleasedState(serial) => s.publisher.Idle? && serial == s.serial
    case Opened(v, clean) => s.publisher.Idle? && PinnedOk(s, v, clean)
    case Streaming(v, clean, sent, out) =>
      && PinnedOk(s, v, clean)
      && sent <= |v.lines| && out == [Soa(zone, v.serial)] + LineRecords(v.lines[..sent], zone)
    case Finished(v, clean, out) => PinnedOk(s, v, clean) && out == AxfrRecords(v.serial, v.lines, zone)
  }

  /** While nothing is in between, raw file, database, state file and memory show the last version. */
  ghost predicate FilesOk(s: System) {
    && s.versions != []
    && var last := s.versions[|s.versions| - 1];
    && s.serial == last.serial
    && (!s.dirty && (s.publisher.Idle? || s.publisher.Locked?) ==>
          s.raw == last.lines && s.cdb == last.lines && s.saved == last.serial && s.serial == last.serial)
    && (s.publisher.RawRenamed? || s.publisher.CdbRenamed? || s.publisher.ManifestRenamed? ||
        s.publisher.StateLocked? || s.publisher.StateSaved? ==>
          s.raw == s.publisher.next.lines)
    && (s.publisher.CdbRenamed? || s.publisher.ManifestRenamed? || s.publisher.StateLocked? ||
        s.publisher.StateSaved? ==>
          s.cdb == s.publisher.next.lines)
    && (s.publisher.StateSaved? ==> s.saved == s.publisher.next.serial)
    && (s.publisher.StateSet? || s.publisher.StateReleased? ==>
          !s.dirty && last == s.publisher.next && s.raw == s.cdb == last.lines && s.saved == s.serial == last.serial)
  }

  ghost predicate Inv(s: System, zone: text) {
    FilesOk(s) && forall id :: id in s.readers ==> ReaderOk(s, s.readers[id], zone)
  }

  lemma SendOk(s: System, r: Reader, zone: text)
    requires r.Streaming? && ReaderOk(s, r, zone)
    ensures ReaderOk(s, Send(r, zone), zone)
  {
    hide LineRecord;
    var v, k := r.version, r.sent;
    if k < |v.lines| {
      assert v.lines[..k + 1][..k] == v.lines[..k];
    } else {
      assert v.lines[..k] == v.lines;
    }
  }

  lemma PinnedStays(s: System, t: System)
    requires s.versions <= t.versions
    ensures forall v, clean :: PinnedOk(s, v, clean) ==> PinnedOk(t, v, clean)
  {
    forall v, clean | PinnedOk(s, v, clean) ensures PinnedOk(t, v, clean) {
      var k :| 0 <= k < |s.versions| && s.versions[k].serial == v.serial && (clean <==> s.versions[k].lines == v.lines);
      assert t.versions[k] == s.versions[k];
    }
  }

  /** A transfer that is not acting is only affected by the publisher moving on, which it then excludes. */
  lemma OthersOk(s: System, t: System, r: Reader, zone: text)
    requires ReaderOk(s, r, zone)
    requires ReadsPublication(r) ==> t.publisher.Idle? && s.serial == t.serial
    requires s.versions <= t.versions
    ensures ReaderOk(t, r, zone)
  {
    hide LineRecords, AxfrRecords;
    PinnedStays(s, t);
  }

  lemma ReaderKeeps(s: System, a: Action, zone: text, id: nat)
    requires Inv(s, zone) && Enabled(s, a) && id in Do(s, a, zone).readers
    ensures ReaderOk(Do(s, a, zone), Do(s, a, zone).readers[id], zone)
  {
    hide LineRecords, AxfrRecords, Send;
    var t := Do(s, a, zone);
    if id in s.readers && t.readers[id] == s.readers[id] {
      OthersOk(s, t, s.readers[id], zone);
    } else if a == ReaderSend(id) {
      SendOk(s, s.readers[id], zone);
      SendVersion(s.readers[id], zone);
      OthersOk(s, t, Send(s.readers[id], zone), zone);
    } else if a == ReaderRelease(id) {
      NothingSent(s.readers[id].version.lines, zone);
    } else if a == ReaderOpen(id) {
      PinnedIsLast(s);
    }
  }

  lemma SendVersion(r: Reader, zone: text)
    requires r.Streaming?
    ensures !ReadsPublication(Send(r, zone))
  {
  }

  lemma NothingSent(lines: seq<text>, zone: text)
    ensures LineRecords(lines[..0], zone) == []
  {
  }

  lemma PinnedIsLast(s: System)
    requires FilesOk(s)
    ensures PinnedOk(s, Version(s.serial, s.raw), s.raw == LastLines(s))
  {
    assert s.versions[|s.versions| - 1].serial == s.serial;
  }

  /** Every enabled step of every participant keeps the invariant. */
  lemma StepKeepsInv(s: System, a: Action, zone: text)
    requires Inv(s, zone) && Enabled(s, a)
    ensures Inv(Do(s, a, zone), zone)
  {
    hide ReaderOk;
    forall id | id in Do(s, a, zone).readers
      ensures ReaderOk(Do(s, a, zone), Do(s, a, zone).readers[id], zone)
    {
      ReaderKeeps(s, a, zone, id);
    }
  }

  // ------------------------------------------------------------------ runs

  /** The system after these steps, as long as each was enabled when it happened. */
  ghost function Exec(first: Version, actions: seq<Action>, zone: text): Option<System> {
    if actions == [] then Some(Start(first))
    else
      match Exec(first, actions[..|actions| - 1], zone)
      case None => None
      case Some(s) => if Enabled(s, actions[|actions| - 1]) then Some(Do(s, actions[|actions| - 1], zone)) else None
  }

  lemma {:induction false} RunKeepsInv(first: Version, actions: seq<Action>, zone: text)
    requires Exec(first, actions, zone).Some?
    ensures Inv(Exec(first, actions, zone).value, zone)
  {
    hide Inv, Do, Enabled;
    if actions == [] {
      StartInv(first, zone);
    } else {
      var n := |actions| - 1;
      RunKeepsInv(first, actions[..n], zone);
      StepKeepsInv(Exec(first, actions[..n], zone).value, actions[n], zone);
    }
  }

  lemma StartInv(first: Version, zone: text)
    ensures Inv(Start(first), zone)
  {
  }

  ghost predicate DistinctVersions(s: System) {
    forall j, k :: 0 <= j < k < |s.versions| ==> s.versions[j].serial != s.versions[k].serial
  }

  /**
   * Snapshot consistency. Under every interleaving, a transfer that finishes has sent a well-formed full
   * zone of its pinned version. With distinct serials that version is a published one, its two SOA serials
   * and its records belonging together, if and only if the raw file was the last publication's when it
   * was pinned.
   */
  lemma TransferIsOneVersion(first: Version, actions: seq<Action>, zone: text, id: nat)
    requires Exec(first, actions, zone).Some? && id in Exec(first, actions, zone).value.readers
    requires Exec(first, actions, zone).value.readers[id].Finished?
    ensures var s := Exec(first, actions, zone).value;
            var r := s.readers[id];
            && r.out == AxfrRecords(r.version.serial, r.version.lines, zone)
            && (r.clean ==> r.version in s.versions)
            && (DistinctVersions(s) ==> (r.version in s.versions <==> r.clean))
  {
    hide Exec, AxfrRecords, LineRecords;
    RunKeepsInv(first, actions, zone);
    var s := Exec(first, actions, zone).value;
    assert ReaderOk(s, s.readers[id], zone);
    PinnedIsPublished(s, s.readers[id].version, s.readers[id].clean);
  }

  lemma PinnedIsPublished(s: System, v: Version, clean: bool)
    requires PinnedOk(s, v, clean)
    ensures clean ==> v in s.versions
    ensures DistinctVersions(s) ==> (v in s.versions <==> clean)
  {
    var k :| 0 <= k < |s.versions| && s.versions[k].serial == v.serial && (clean <==> s.versions[k].lines == v.lines);
    assert clean ==> s.versions[k] == v;
    if DistinctVersions(s) && v in s.versions {
      var j :| 0 <= j < |s.versions| && s.versions[j] == v;
      assert j == k;
    }
  }

  ghost predicate NoLateAbort(first: Version, actions: seq<Action>, zone: text) {
    forall k :: 0 <= k < |actions| && actions[k].Abort? ==>
      var before := Exec(first, actions[..k], zone);
      before.Some? ==> before.value.publisher.Locked?
  }

  ghost predicate AllClean(s: System) {
    !s.dirty && forall id :: id in s.readers ==>
      (s.readers[id].Opened? || s.readers[id].Streaming? || s.readers[id].Finished? ==> s.readers[id].clean)
  }

  /** If no step between the raw rename and the state update fails, every transfer is clean. */
  lemma {:induction false} NoAbortAllClean(first: Version, actions: seq<Action>, zone: text)
    requires Exec(first, actions, zone).Some? && NoLateAbort(first, actions, zone)
    ensures AllClean(Exec(first, actions, zone).value)
  {
    if actions != [] {
      var n := |actions| - 1;
      var front := actions[..n];
      forall k | 0 <= k < n && front[k].Abort?
        ensures Exec(first, front[..k], zone).Some? ==> Exec(first, front[..k], zone).value.publisher.Locked?
      {
        assert front[..k] == actions[..k] && actions[k].Abort?;
      }
      NoAbortAllClean(first, front, zone);
      RunKeepsInv(first, front, zone);
      CleanStep(Exec(first, front, zone).value, actions[n], zone);
    }
  }

  lemma CleanStep(s: System, a: Action, zone: text)
    requires Inv(s, zone) && AllClean(s) && Enabled(s, a) && (a.Abort? ==> s.publisher.Locked?)
    ensures AllClean(Do(s, a, zone))
  {
    hide LineRecord, LineRecords, AxfrRecords, PinnedOk;
    if a.ReaderOpen? {
      assert ReaderOk(s, s.readers[a.id], zone);
    }
  }

  // -------------------------------------------------- transfers after an abort

  lemma ExecNone(first: Version, zone: text)
    ensures Exec(first, [], zone) == Some(Start(first))
  {
  }

  lemma ExecStep(first: Version, front: seq<Action>, a: Action, zone: text, s: System)
    requires Exec(first, front, zone) == Some(s) && Enabled(s, a)
    ensures Exec(first, front + [a], zone) == Some(Do(s, a, zone))
  {
    hide Do, Enabled;
    assert (front + [a])[..|front|] == front;
  }

  /** With the publisher idle, one transfer moves on from r to the next state. */
  lemma PinStep(first: Version, front: seq<Action>, zone: text, s: System, id: nat, r: Reader, a: Action, next: Reader)
    requires s.publisher.Idle?
    requires Exec(first, front, zone) == Some(s.(readers := s.readers[id := r]))
    requires || (r == HoldsPublication && a == ReaderLockState(id) && next == HoldsBoth)
             || (r == HoldsBoth && a == ReaderReadSerial(id) && next == ReadSerial(s.serial))
             || (r == ReadSerial(s.serial) && a == ReaderReleaseState(id) && next == ReleasedState(s.serial))
             || (r == ReleasedState(s.serial) && a == ReaderOpen(id)
                 && next == Opened(Version(s.serial, s.raw), s.raw == LastLines(s)))
    ensures Exec(first, front + [a], zone) == Some(s.(readers := s.readers[id := next]))
  {
    hide Exec, LastLines;
    var now := s.(readers := s.readers[id := r]);
    assert LastLines(now) == LastLines(s) by {
      SameLast(now, s);
    }
    assert now.readers[id := next] == s.readers[id := next];
    ExecStep(first, front, a, zone, now);
  }

  lemma SameLast(s: System, t: System)
    requires s.versions == t.versions
    ensures LastLines(s) == LastLines(t)
  {
  }

  function Pin(id: nat): seq<Action> {
    [ReaderLock(id), ReaderLockState(id), ReaderReadSerial(id), ReaderReleaseState(id), ReaderOpen(id)]
  }

  lemma LockStep(first: Version, front: seq<Action>, zone: text, s: System, id: nat)
    requires Exec(first, front, zone) == Some(s) && s.publisher.Idle? && id !in s.readers
    ensures Exec(first, front + [ReaderLock(id)], zone) == Some(s.(readers := s.readers[id := HoldsPublication]))
  {
    hide Exec;
    ExecStep(first, front, ReaderLock(id), zone, s);
  }

  lemma FiveSteps(front: seq<Action>, a: Action, b: Action, c: Action, d: Action, e: Action)
    ensures front + [a] + [b] + [c] + [d] + [e] == front + [a, b, c, d, e]
  {
  }

  /** A new transfer that finds the publisher idle can pin whatever serial and raw file are there. */
  lemma ReaderPins(first: Version, front: seq<Action>, zone: text, s: System, id: nat)
    requires Exec(first, front, zone) == Some(s) && s.publisher.Idle? && id !in s.readers
    ensures Exec(first, front + Pin(id), zone) ==
              Some(s.(readers := s.readers[id := Opened(Version(s.serial, s.raw), s.raw == LastLines(s))]))
  {
    hide Exec, Send, WritesState, LastLines;
    var last := Opened(Version(s.serial, s.raw), s.raw == LastLines(s));
    hide Enabled, Do;
    LockStep(first, front, zone, s, id);
    var f1 := front + [ReaderLock(id)];
    PinStep(first, f1, zone, s, id, HoldsPublication, ReaderLockState(id), HoldsBoth);
    var f2 := f1 + [ReaderLockState(id)];
    PinStep(first, f2, zone, s, id, HoldsBoth, ReaderReadSerial(id), ReadSerial(s.serial));
    var f3 := f2 + [ReaderReadSerial(id)];
    PinStep(first, f3, zone, s, id, ReadSerial(s.serial), ReaderReleaseState(id), ReleasedState(s.serial));
    var f4 := f3 + [ReaderReleaseState(id)];
    PinStep(first, f4, zone, s, id, ReleasedState(s.serial), ReaderOpen(id), last);
    FiveSteps(front, ReaderLock(id), ReaderLockState(id), ReaderReadSerial(id), ReaderReleaseState(id), ReaderOpen(id));
  }

  /**
   * The exact extent of the damage. In every reachable state with the publisher idle and distinct serials,
   * a transfer started now can pin serial and raw file, and they are a published version if and only if
   * no abort has left other lines in the raw file than the last publication's.
   */
  lemma PinsPublishedExactly(first: Version, actions: seq<Action>, zone: text, id: nat)
    requires Exec(first, actions, zone).Some?
    requires var s := Exec(first, actions, zone).value; s.publisher.Idle? && id !in s.readers && DistinctVersions(s)
    ensures var s, t := Exec(first, actions, zone).value, Exec(first, actions + Pin(id), zone);
            && t.Some? && id in t.value.readers && t.value.readers[id].Opened?
            && t.value.versions == s.versions
            && (t.value.readers[id].version in t.value.versions <==> s.raw == LastLines(s))
    ensures var s := Exec(first, actions, zone).value; s.raw != LastLines(s) ==> s.dirty
  {
    hide Exec, LineRecords, AxfrRecords;
    var s := Exec(first, actions, zone).value;
    RunKeepsInv(first, actions, zone);
    ReaderPins(first, actions, zone, s, id);
    PinnedIsLast(s);
    PinnedIsPublished(s, Version(s.serial, s.raw), s.raw == LastLines(s));
  }

  /** An abort behind the raw rename, from any reachable idle state, leaves exactly the lines it renamed. */
  lemma AbortLeaves(first: Version, front: seq<Action>, zone: text, s: System, w: Version)
    requires Exec(first, front, zone) == Some(s) && s.publisher.Idle?
    requires forall id :: id in s.readers ==> !ReadsPublication(s.readers[id])
    ensures Exec(first, front + [LockPublication(w), RenameRaw, Abort], zone) == Some(s.(raw := w.lines, dirty := true))
  {
    hide Exec;
    ExecStep(first, front, LockPublication(w), zone, s);
    ExecStep(first, front + [LockPublication(w)], RenameRaw, zone, s.(publisher := Locked(w)));
    ExecStep(first, front + [LockPublication(w)] + [RenameRaw], Abort, zone,
             s.(raw := w.lines, publisher := RawRenamed(w)));
    assert front + [LockPublication(w)] + [RenameRaw] + [Abort] == front + [LockPublication(w), RenameRaw, Abort];
  }

  /** So an abort of new lines lets a transfer pair the old serial with them. */
  lemma AbortMixesVersions(first: Version, w: Version, zone: text)
    requires w.lines != first.lines
    ensures var s := Exec(first, [LockPublication(w), RenameRaw, Abort] + Pin(0), zone);
            && s.Some? && 0 in s.value.readers && s.value.versions == [first]
            && s.value.readers[0] == Opened(Version(first.serial, w.lines), false)
  {
    hide Exec;
    var abort := [LockPublication(w), RenameRaw, Abort];
    ExecNone(first, zone);
    AbortLeaves(first, [], zone, Start(first), w);
    assert [] + abort == abort;
    ReaderPins(first, abort, zone, Start(first).(raw := w.lines, dirty := true), 0);
  }

  // ------------------------------------------- incremental requests in between

  lemma StepVersions(s: System, a: Action, zone: text)
    requires Enabled(s, a)
    ensures s.versions <= Do(s, a, zone).versions
  {
  }

  /** Publications are only ever added. */
  lemma {:induction false} VersionsGrow(first: Version, actions: seq<Action>, zone: text, a: nat)
    requires a <= |actions| && Exec(first, actions, zone).Some?
    ensures Exec(first, actions[..a], zone).Some?
    ensures Exec(first, actions[..a], zone).value.versions <= Exec(first, actions, zone).value.versions
  {
    hide Enabled, Do;
    if a == |actions| {
      assert actions[..a] == actions;
    } else {
      var n := |actions| - 1;
      VersionsGrow(first, actions[..n], zone, a);
      assert actions[..n][..a] == actions[..a];
      StepVersions(Exec(first, actions[..n], zone).value, actions[n], zone);
    }
  }

  function LastIndex(s: System): nat {
    if s.versions == [] then 0 else |s.versions| - 1
  }

  /** The pinned serial is that of a publication not before the n-th, with its lines exactly when clean. */
  ghost predicate PinnedFrom(s: System, v: Version, clean: bool, n: nat) {
    exists k :: n <= k < |s.versions| && s.versions[k].serial == v.serial && (clean <==> s.versions[k].lines == v.lines)
  }

  ghost predicate ReaderFrom(s: System, id: nat, n: nat) {
    && n < |s.versions|
    && (id in s.readers ==>
          match s.readers[id]
          case Opened(v, clean) => PinnedFrom(s, v, clean, n)
          case Streaming(v, clean, sent, out) => PinnedFrom(s, v, clean, n)
          case Finished(v, clean, out) => PinnedFrom(s, v, clean, n)
          case HoldsPublication => true
          case HoldsBoth => true
          case ReadSerial(serial) => true
          case ReleasedState(serial) => true)
  }

  lemma ReaderFromStep(s: System, a: Action, zone: text, id: nat, n: nat)
    requires Inv(s, zone) && Enabled(s, a) && ReaderFrom(s, id, n)
    ensures ReaderFrom(Do(s, a, zone), id, n)
  {
    hide LineRecord, LineRecords, AxfrRecords, PinnedOk;
    var t := Do(s, a, zone);
    StepVersions(s, a, zone);
    forall v, clean | PinnedFrom(s, v, clean, n) ensures PinnedFrom(t, v, clean, n) {
      var k :| n <= k < |s.versions| && s.versions[k].serial == v.serial && (clean <==> s.versions[k].lines == v.lines);
      assert t.versions[k] == s.versions[k];
    }
    if a == ReaderOpen(id) {
      assert ReaderOk(s, s.readers[id], zone);
      assert t.versions[|s.versions| - 1].serial == s.serial;
      assert PinnedFrom(t, Version(s.serial, s.raw), s.raw == LastLines(s), n);
    }
  }

  /**
   * A transfer that starts after some moment, as the fallback of an incremental request starts after its
   * cache lookup, is of a publication not older than the last one at that moment, whatever happens between.
   */
  lemma {:induction false} FallbackNotOlder(first: Version, actions: seq<Action>, zone: text, a: nat, id: nat)
    requires a <= |actions| && Exec(first, actions, zone).Some?
    requires Exec(first, actions[..a], zone).Some? && id !in Exec(first, actions[..a], zone).value.readers
    ensures ReaderFrom(Exec(first, actions, zone).value, id, LastIndex(Exec(first, actions[..a], zone).value))
  {
    hide Enabled, Do, ReaderFrom, Inv;
    if a == |actions| {
      assert actions[..a] == actions;
      RunKeepsInv(first, actions, zone);
      NotYet(Exec(first, actions, zone).value, zone, id);
    } else {
      var n := |actions| - 1;
      assert actions[..n][..a] == actions[..a];
      FallbackNotOlder(first, actions[..n], zone, a, id);
      RunKeepsInv(first, actions[..n], zone);
      ReaderFromStep(Exec(first, actions[..n], zone).value, actions[n], zone, id,
                     LastIndex(Exec(first, actions[..a], zone).value));
    }
  }

  lemma NotYet(s: System, zone: text, id: nat)
    requires Inv(s, zone) && id !in s.readers
    ensures ReaderFrom(s, id, LastIndex(s))
  {
  }

  /**
   * The single SOA that answers an up-to-date client is read again after the comparison. Whatever happens
   * in between, the client accepts it if and only if the serial it has is still the current one.
   */
  lemma SoaReadAgain(first: Version, actions: seq<Action>, zone: text, a: nat, since: u32)
    requires a <= |actions| && Exec(first, actions, zone).Some? && ToLower(Fqdn(zone)) == zone
    ensures Exec(first, actions[..a], zone).Some?
    ensures var before, now := Exec(first, actions[..a], zone).value, Exec(first, actions, zone).value;
            && before.versions != [] && before.versions <= now.versions
            && before.serial == before.versions[|before.versions| - 1].serial
            && now.serial == now.versions[|now.versions| - 1].serial
            && (Interpret([Soa(zone, now.serial)], zone, since).Ok? <==> since == now.serial)
            && (DistinctVersions(now) && since == before.serial ==>
                  (Interpret([Soa(zone, now.serial)], zone, since).Ok? <==> now.versions == before.versions))
  {
    hide Exec, LineRecords, AxfrRecords, Fqdn, ReaderOk;
    VersionsGrow(first, actions, zone, a);
    RunKeepsInv(first, actions, zone);
    RunKeepsInv(first, actions[..a], zone);
    LowerIdempotent(Fqdn(zone));
    var before, now := Exec(first, actions[..a], zone).value, Exec(first, actions, zone).value;
    assert now.versions[|before.versions| - 1] == before.versions[|before.versions| - 1];
  }
}
