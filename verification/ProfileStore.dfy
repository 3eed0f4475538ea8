/** The store of profiles and of the profile each node runs. */
module ProfileStore {
  import opened Basics
  import opened Text
  import opened ProfileParse

  const MAX_HISTORY: nat := 50
  const ABSENT: text := ['\0']

  datatype Entry = Entry(raw: Raw, hash: seq<Bytes.byte>)
  datatype Change = Change(from: text, to: text)

  type Assignments = map<text, text>
  type Histories = map<text, seq<Change>>

  datatype Disk = Disk(profiles: map<text, Raw>, assign: Assignments, history: Histories)

  /** The store between two calls: what it holds, and the file. A store without a path has filed false. */
  datatype Store = Store(profiles: map<text, Entry>, assign: Assignments, history: Histories,
                         filed: bool, disk: Option<Disk>)

  datatype Summary = Summary(id: text, name: text, enabled: bool, rules: nat, hash: seq<Bytes.byte>)

  datatype Outcome = Done | Invalid | NotFound | InUse | Storage

  /** A call, and for each time it saves whether writing the file would succeed. */
  datatype Call =
    | Put(raw: Raw, saves: bool)
    | Delete(id: text, saves: bool)
    | Assign(node: text, to: text, saves: bool, logs: bool)
    | AssignMany(nodes: seq<text>, to: text, saves: bool, logs: bool)
    | Restart

  // ---------------------------------------------------------------- what the calls do

  function HistoryOf(h: Histories, node: text): seq<Change> {
    if node in h then h[node] else []
  }

  /** The assigned profile; empty when there is none. */
  function AssignedTo(a: Assignments, node: text): text {
    if node in a then a[node] else ""
  }

  function LastFew(h: seq<Change>): (r: seq<Change>)
    ensures |r| <= MAX_HISTORY
  {
    if |h| > MAX_HISTORY then h[|h| - MAX_HISTORY..] else h
  }

  function Repeat(x: Change, n: nat): (r: seq<Change>)
    ensures |r| == n && forall i :: 0 <= i < n ==> r[i] == x
  {
    seq(n, i => x)
  }

  /** One change of value for each time the node is named, with the value before the call as its origin. */
  function RecordedAt(h: Histories, a: Assignments, nodes: seq<text>, to: text, n: text): seq<Change> {
    if n !in nodes || AssignedTo(a, n) == to then HistoryOf(h, n)
    else LastFew(HistoryOf(h, n) + Repeat(Change(AssignedTo(a, n), to), multiset(nodes)[n]))
  }

  function Recorded(h: Histories, a: Assignments, nodes: seq<text>, to: text): Histories {
    map n | n in h.Keys + (set m | m in nodes && AssignedTo(a, m) != to) :: RecordedAt(h, a, nodes, to, n)
  }

  function Assigned(a: Assignments, nodes: seq<text>, to: text): Assignments {
    map n | n in a.Keys + (set m | m in nodes) :: if n in nodes then to else a[n]
  }

  function Written(c: Codec, s: Store): Disk {
    Disk(map id | id in s.profiles :: c.indent(s.profiles[id].raw), s.assign, s.history)
  }

  function Save(c: Codec, s: Store, ok: bool): Store {
    if s.filed && ok then s.(disk := Some(Written(c, s))) else s
  }

  predicate Saves(s: Store, ok: bool) {
    !s.filed || ok
  }

  function Empty(filed: bool, disk: Option<Disk>): Store {
    Store(map[], map[], map[], filed, disk)
  }

  /** A profile of the file is kept when it still parses to its own id. */
  predicate Loads(c: Codec, d: Disk, id: text) {
    id in d.profiles && Parse(c, d.profiles[id]).Some? && Parse(c, d.profiles[id]).value.profile.id == id
  }

  function EntryOf(c: Codec, raw: Raw): Entry
    requires Parse(c, raw).Some?
  {
    var canon := Parse(c, raw).value.canon;
    Entry(canon, c.hash(canon))
  }

  /** A new process: profiles that parse, assignments to those, and the last changes of each node. */
  function Loaded(c: Codec, filed: bool, disk: Option<Disk>): Store {
    if !filed || disk.None? then Empty(filed, disk)
    else
      var d := disk.value;
      Store(
        map id | id in d.profiles && Loads(c, d, id) :: EntryOf(c, d.profiles[id]),
        map n | n in d.assign && d.assign[n] in d.profiles && Loads(c, d, d.assign[n]) :: d.assign[n],
        map n | n in d.history :: LastFew(d.history[n]),
        filed, disk)
  }

  /** The state and the outcome of a call: a call that does not end in Done changes nothing at all. */
  function Step(c: Codec, s: Store, call: Call): (Store, Outcome) {
    match call
    case Put(raw, ok) =>
      var parsed := Parse(c, raw);
      if parsed.None? then (s, Invalid)
      else if !Saves(s, ok) then (s, Storage)
      else (Save(c, s.(profiles := s.profiles[parsed.value.profile.id := EntryOf(c, raw)]), true), Done)
    case Delete(id, ok) =>
      if id !in s.profiles then (s, NotFound)
      else if id in s.assign.Values then (s, InUse)
      else if !Saves(s, ok) then (s, Storage)
      else (Save(c, s.(profiles := s.profiles - {id}), true), Done)
    case Assign(node, to, ok, logs) =>
      if to != "" && to !in s.profiles then (s, NotFound)
      else if !Saves(s, ok) then (s, Storage)
      else
        var s1 := Save(c, s.(assign := if to == "" then s.assign - {node} else s.assign[node := to]), true);
        (Save(c, s1.(history := Recorded(s.history, s.assign, [node], to)), logs), Done)
    case AssignMany(nodes, to, ok, logs) =>
      if to !in s.profiles then (s, NotFound)
      else if !Saves(s, ok) then (s, Storage)
      else
        var s1 := Save(c, s.(assign := Assigned(s.assign, nodes, to)), true);
        (Save(c, s1.(history := Recorded(s.history, s.assign, nodes, to)), logs), Done)
    case Restart =>
      (Loaded(c, s.filed, s.disk), Done)
  }

  // ---------------------------------------------------------------- what every state keeps

  /** The entry is canonical for its id and carries the hash of its own bytes. */
  ghost predicate GoodEntry(c: Codec, id: text, e: Entry) {
    && ValidId(id)
    && (exists p ::
          && Parse(c, e.raw) == Some(Parsed(p, e.raw)) && Parse(c, c.indent(e.raw)) == Some(Parsed(p, e.raw))
          && p.id == id)
    && e.hash == c.hash(e.raw)
  }

  /** Every entry is good, and every assigned profile exists. */
  ghost predicate Sound(c: Codec, s: Store) {
    && (forall id :: id in s.profiles ==> GoodEntry(c, id, s.profiles[id]))
    && (forall n :: n in s.assign ==> s.assign[n] in s.profiles)
  }

  /** The file holds the profiles and assignments of memory; a store that never saved has neither. */
  ghost predicate Mirrored(c: Codec, s: Store) {
    if !s.filed then s.disk == None
    else if s.disk.None? then s.profiles == map[] && s.assign == map[] && s.history == map[]
    else
      && s.disk.value.profiles == Written(c, s).profiles
      && s.disk.value.assign == s.assign
  }

  lemma EntryIsGood(c: Codec, raw: Raw)
    requires Faithful(c) && Parse(c, raw).Some?
    ensures GoodEntry(c, Parse(c, raw).value.profile.id, EntryOf(c, raw))
  {
    CanonicalParses(c, raw);
    var r := Parse(c, raw).value;
    assert Parse(c, EntryOf(c, raw).raw) == Some(Parsed(r.profile, r.canon));
  }

  lemma IdIsPlain(id: text)
    requires ValidId(id)
    ensures id != ABSENT && id != ""
  {
    assert |id| > 0 && id[0] != '\0';
  }

  lemma SentinelIsNoProfile(c: Codec, s: Store, node: text)
    requires Sound(c, s) && node in s.assign
    ensures s.assign[node] != ABSENT && s.assign[node] != ""
  {
    hide ValidId, Parse;
    assert GoodEntry(c, s.assign[node], s.profiles[s.assign[node]]);
    IdIsPlain(s.assign[node]);
  }

  lemma {:induction false} LastFewTwice(h: seq<Change>, x: Change)
    ensures LastFew(LastFew(h) + [x]) == LastFew(h + [x])
  {
  }

  lemma RecordedHistory(h: Histories, a: Assignments, nodes: seq<text>, to: text, n: text)
    ensures HistoryOf(Recorded(h, a, nodes, to), n) == RecordedAt(h, a, nodes, to, n)
  {
    hide LastFew, Repeat;
  }

  lemma RecordedAtOneMore(h: Histories, a: Assignments, nodes: seq<text>, node: text, to: text, n: text)
    ensures RecordedAt(h, a, nodes + [node], to, n) ==
              if n == node && AssignedTo(a, n) != to
              then LastFew(RecordedAt(h, a, nodes, to, n) + [Change(AssignedTo(a, n), to)])
              else RecordedAt(h, a, nodes, to, n)
  {
    hide LastFew;
    assert multiset(nodes + [node]) == multiset(nodes) + multiset([node]);
    if n == node && AssignedTo(a, n) != to {
      var x, k := Change(AssignedTo(a, n), to), multiset(nodes)[n];
      assert k == 0 <==> n !in nodes;
      assert Repeat(x, k + 1) == Repeat(x, k) + [x];
      var all := HistoryOf(h, n) + Repeat(x, k);
      assert all + [x] == HistoryOf(h, n) + Repeat(x, k + 1);
      LastFewTwice(all, x);
      if k == 0 {
        assert all == HistoryOf(h, n);
      }
    }
  }

  /** Recording one more name is one more recorded change. */
  lemma RecordedOneMore(h: Histories, a: Assignments, nodes: seq<text>, node: text, to: text)
    ensures var r := Recorded(h, a, nodes, to);
            Recorded(h, a, nodes + [node], to) ==
              if AssignedTo(a, node) == to then r
              else r[node := LastFew(HistoryOf(r, node) + [Change(AssignedTo(a, node), to)])]
  {
    hide LastFew, RecordedAt, AssignedTo;
    forall n: text
      ensures RecordedAt(h, a, nodes + [node], to, n) ==
                if n == node && AssignedTo(a, n) != to
                then LastFew(HistoryOf(Recorded(h, a, nodes, to), n) + [Change(AssignedTo(a, n), to)])
                else RecordedAt(h, a, nodes, to, n)
    {
      RecordedAtOneMore(h, a, nodes, node, to, n);
      RecordedHistory(h, a, nodes, to, n);
    }
  }

  lemma LoadSound(c: Codec, filed: bool, disk: Option<Disk>)
    requires Faithful(c)
    ensures Sound(c, Loaded(c, filed, disk))
  {
    hide Parse, Faithful, GoodEntry, EntryOf;
    if filed && disk.Some? {
      var d := disk.value;
      forall id | id in d.profiles && Loads(c, d, id) ensures GoodEntry(c, id, EntryOf(c, d.profiles[id])) {
        EntryIsGood(c, d.profiles[id]);
      }
    }
  }

  /** Every call keeps the store sound, whatever the file does. */
  lemma StepSound(c: Codec, s: Store, call: Call)
    requires Faithful(c) && Sound(c, s)
    ensures Sound(c, Step(c, s, call).0)
  {
    hide Parse, Faithful, GoodEntry, EntryOf, Recorded, Loaded, Written;
    match call {
      case Put(raw, ok) =>
        if Parse(c, raw).Some? {
          EntryIsGood(c, raw);
        }
      case Restart => LoadSound(c, s.filed, s.disk);
      case Delete(id, ok) =>
        assert forall n :: n in s.assign ==> s.assign[n] in s.assign.Values;
      case Assign(node, to, ok, logs) =>
      case AssignMany(nodes, to, ok, logs) =>
    }
  }

  /** The part of a map whose keys are no longer to do. */
  function Part<V>(all: map<text, V>, todo: set<text>): map<text, V> {
    map n | n in all && n !in todo :: all[n]
  }

  lemma PartOne<V>(all: map<text, V>, todo: set<text>, n: text)
    requires n in todo
    ensures Part(all, todo - {n}) == if n in all then Part(all, todo)[n := all[n]] else Part(all, todo)
  {
  }

  lemma PartEnds<V>(all: map<text, V>, keys: set<text>)
    requires all.Keys <= keys
    ensures Part(all, keys) == map[] && Part(all, {}) == all
  {
  }

  lemma LoadsNothing(c: Codec, filed: bool, disk: Option<Disk>)
    ensures !filed || disk.None? ==> Loaded(c, filed, disk) == Empty(filed, disk)
  {
  }

  /** What is loaded from a file, key by key. */
  lemma LoadedParts(c: Codec, d: Disk)
    ensures var all := Loaded(c, true, Some(d));
      && all.profiles.Keys <= d.profiles.Keys && all.assign.Keys <= d.assign.Keys && all.history.Keys == d.history.Keys
      && (forall id :: id in d.profiles ==> (id in all.profiles <==> Loads(c, d, id)))
      && (forall id :: id in all.profiles ==> all.profiles[id] == EntryOf(c, d.profiles[id]))
      && (forall n :: n in d.assign ==> (n in all.assign <==> d.assign[n] in all.profiles))
      && (forall n :: n in all.assign ==> all.assign[n] == d.assign[n])
      && (forall n :: n in d.history ==> all.history[n] == LastFew(d.history[n]))
      && all.filed && all.disk == Some(d)
  {
    hide Parse, EntryOf, LastFew;
  }

  /** The store as the panel holds it: every method is one Step. */
  class SmartDistProfileStore {
    const c: Codec
    const filed: bool
    var profiles: map<text, Entry>
    var assign: Assignments
    var history: Histories
    var disk: Option<Disk>

    function Now(): Store
      reads this
    {
      Store(profiles, assign, history, filed, disk)
    }

    ghost predicate Holds()
      reads this
    {
      Faithful(c) && Sound(c, Now())
    }

    /** A new process reads the file. */
    constructor (codec: Codec, filed: bool, disk: Option<Disk>)
      requires Faithful(codec)
      ensures c == codec && Now() == Loaded(codec, filed, disk) && Holds()
    {
      c, this.filed, this.disk := codec, filed, disk;
      profiles, assign, history := map[], map[], map[];
      new;
      hide Faithful, Sound, Loaded;
      LoadSound(codec, filed, disk);
      LoadsNothing(codec, filed, disk);
      if filed && disk.Some? {
        Load(disk.value);
      }
    }

    /** Profile by profile, then node by node. */
    method Load(d: Disk)
      requires Faithful(c) && filed && Now() == Empty(true, Some(d))
      modifies this
      ensures Now() == Loaded(c, true, Some(d))
    {
      hide Faithful, Loaded, Loads, EntryOf, Part;
      LoadedParts(c, d);
      LoadProfiles(d);
      LoadAssignments(d);
      LoadHistories(d);
    }

    method LoadProfiles(d: Disk)
      requires profiles == map[]
      modifies this`profiles
      ensures profiles == Loaded(c, true, Some(d)).profiles
    {
      hide Parse, EntryOf, Part, Loaded;
      LoadedParts(c, d);
      ghost var all := Loaded(c, true, Some(d)).profiles;
      PartEnds(all, d.profiles.Keys);
      var todo := d.profiles.Keys;
      while todo != {}
        invariant todo <= d.profiles.Keys && profiles == Part(all, todo)
        decreases |todo|
      {
        var id :| id in todo;
        PartOne(all, todo, id);
        var parsed := Parse(c, d.profiles[id]);
        if parsed.Some? && parsed.value.profile.id == id {
          profiles := profiles[id := EntryOf(c, d.profiles[id])];
        }
        todo := todo - {id};
      }
    }

    method LoadAssignments(d: Disk)
      requires assign == map[] && profiles == Loaded(c, true, Some(d)).profiles
      modifies this`assign
      ensures assign == Loaded(c, true, Some(d)).assign
    {
      hide Loads, EntryOf, Part, Loaded;
      LoadedParts(c, d);
      ghost var all := Loaded(c, true, Some(d)).assign;
      PartEnds(all, d.assign.Keys);
      var todo := d.assign.Keys;
      while todo != {}
        invariant todo <= d.assign.Keys && assign == Part(all, todo)
        decreases |todo|
      {
        var n :| n in todo;
        PartOne(all, todo, n);
        if d.assign[n] in profiles {
          assign := assign[n := d.assign[n]];
        }
        todo := todo - {n};
      }
    }

    method LoadHistories(d: Disk)
      requires history == map[]
      modifies this`history
      ensures history == Loaded(c, true, Some(d)).history
    {
      hide Loads, EntryOf, Part, Loaded, LastFew;
      LoadedParts(c, d);
      ghost var all := Loaded(c, true, Some(d)).history;
      PartEnds(all, d.history.Keys);
      var todo := d.history.Keys;
      while todo != {}
        invariant todo <= d.history.Keys && history == Part(all, todo)
        decreases |todo|
      {
        var n :| n in todo;
        PartOne(all, todo, n);
        history := history[n := LastFew(d.history[n])];
        todo := todo - {n};
      }
    }

    /** Writes the file; ok is whether the write and the rename succeed. */
    method SaveLocked(ok: bool) returns (saved: bool)
      modifies this`disk
      ensures Now() == Save(c, old(Now()), ok) && saved == Saves(old(Now()), ok)
    {
      if !filed {
        return true;
      }
      if ok {
        disk := Some(Written(c, Now()));
      }
      return ok;
    }

    method Put(raw: Raw, ok: bool) returns (outcome: Outcome, summary: Option<Summary>)
      requires Holds()
      modifies this
      ensures Holds() && (Now(), outcome) == Step(c, old(Now()), Call.Put(raw, ok))
      ensures summary.Some? <==> outcome == Done
      ensures outcome == Done ==>
                && summary.value.id in profiles && summary.value.hash == profiles[summary.value.id].hash
                && profiles[summary.value.id].raw == Parse(c, raw).value.canon
                && var p := Parse(c, raw).value.profile;
                && summary.value.id == p.id && summary.value.name == p.name && summary.value.enabled == p.enabled
                && (p.rules.Some? ==> summary.value.rules == |p.rules.value|)
    {
      hide Parse, Faithful, Sound, Written, EntryOf;
      StepSound(c, Now(), Call.Put(raw, ok));
      var parsed := ParseSmartDistProfile(c, raw);
      if parsed.None? {
        return Invalid, None;
      }
      var p := parsed.value.profile;
      var had, was := p.id in profiles, profiles;
      EntryIsOfParse(c, raw);
      profiles := profiles[p.id := EntryOf(c, raw)];
      var saved := SaveLocked(ok);
      if !saved {
        if had {
          profiles := profiles[p.id := was[p.id]];
        } else {
          profiles := profiles - {p.id};
        }
        assert profiles == was;
        return Storage, None;
      }
      var rules := if p.rules.Some? then |p.rules.value| else 0;
      return Done, Some(Summary(p.id, p.name, p.enabled, rules, profiles[p.id].hash));
    }

    method Delete(id: text, ok: bool) returns (outcome: Outcome)
      requires Holds()
      modifies this
      ensures Holds() && (Now(), outcome) == Step(c, old(Now()), Call.Delete(id, ok))
    {
      hide Faithful, Sound, Written;
      StepSound(c, Now(), Call.Delete(id, ok));
      if id !in profiles {
        return NotFound;
      }
      if id in assign.Values {
        return InUse;
      }
      var e := profiles[id];
      profiles := profiles - {id};
      var saved := SaveLocked(ok);
      if !saved {
        profiles := profiles[id := e];
        assert profiles == old(profiles);
        return Storage;
      }
      return Done;
    }

    /** Adds one change to a node's history when the value really changed. */
    method RecordLocked(node: text, from: text, to: text)
      modifies this`history
      ensures history == if from == to then old(history)
                         else old(history)[node := LastFew(HistoryOf(old(history), node) + [Change(from, to)])]
    {
      if from == to {
        return;
      }
      var h := HistoryOf(history, node) + [Change(from, to)];
      history := history[node := LastFew(h)];
    }

    method Assign(node: text, to: text, ok: bool, logs: bool) returns (outcome: Outcome)
      requires Holds()
      modifies this
      ensures Holds() && (Now(), outcome) == Step(c, old(Now()), Call.Assign(node, to, ok, logs))
    {
      hide Faithful, Sound, Written, LastFew, Recorded, HistoryOf;
      StepSound(c, Now(), Call.Assign(node, to, ok, logs));
      var had, prev := node in assign, AssignedTo(assign, node);
      if to == "" {
        assign := assign - {node};
      } else {
        if to !in profiles {
          return NotFound;
        }
        assign := assign[node := to];
      }
      var saved := SaveLocked(ok);
      if !saved {
        if had {
          assign := assign[node := prev];
        } else {
          assign := assign - {node};
        }
        AssignUndone(old(assign), node, to);
        return Storage;
      }
      RecordedNone(history, old(assign), to);
      RecordedOneMore(history, old(assign), [], node, to);
      assert [] + [node] == [node];
      RecordLocked(node, prev, to);
      var logged := SaveLocked(logs);
      return Done;
    }

    method AssignMany(nodes: seq<text>, to: text, ok: bool, logs: bool) returns (outcome: Outcome)
      requires Holds()
      modifies this
      ensures Holds() && (Now(), outcome) == Step(c, old(Now()), Call.AssignMany(nodes, to, ok, logs))
    {
      hide Faithful, Sound, Written, LastFew, Recorded, Assigned, Restored, Remembers, AssignedTo;
      StepSound(c, Now(), Call.AssignMany(nodes, to, ok, logs));
      if to !in profiles {
        return NotFound;
      }
      var prev: map<text, text> := map[];
      AssignedNone(assign, to);
      for i := 0 to |nodes|
        invariant Now() == old(Now()) && Remembers(assign, nodes[..i], prev)
      {
        RemembersOneMore(assign, nodes, i, prev);
        prev := prev[nodes[i] := if nodes[i] in assign then assign[nodes[i]] else ABSENT];
      }
      for i := 0 to |nodes|
        invariant Now() == old(Now()).(assign := Assigned(old(assign), nodes[..i], to))
      {
        assign := assign[nodes[i] := to];
        AssignedOneMore(old(assign), nodes, i, to);
      }
      assert nodes[..|nodes|] == nodes;
      var saved := SaveLocked(ok);
      if !saved {
        RollBack(prev);
        RolledBack(c, old(Now()), nodes, to, prev);
        return Storage;
      }
      ghost var before := Now();
      RecordedNone(history, old(assign), to);
      for i := 0 to |nodes|
        invariant Now() == before.(history := Recorded(old(history), old(assign), nodes[..i], to))
      {
        var id := nodes[i];
        PreviousValue(c, old(Now()), nodes, prev, id);
        var from := if prev[id] == ABSENT then "" else prev[id];
        RecordedOneMore(old(history), old(assign), nodes[..i], id, to);
        assert nodes[..i + 1] == nodes[..i] + [id];
        RecordLocked(id, from, to);
      }
      var logged := SaveLocked(logs);
      return Done;
    }

    /** Puts back the assignments a failed save has to undo. */
    method RollBack(prev: map<text, text>)
      modifies this`assign
      ensures assign == Restored(old(assign), prev)
    {
      hide Restored, Pending;
      var todo := prev.Keys;
      UndoneAll(assign, prev);
      while todo != {}
        invariant todo <= prev.Keys
        invariant Restored(assign, Pending(prev, todo)) == Restored(old(assign), prev)
        decreases |todo|
      {
        var n :| n in todo;
        UndoOne(assign, prev, todo, n);
        if prev[n] == ABSENT {
          assign := assign - {n};
        } else {
          assign := assign[n := prev[n]];
        }
        todo := todo - {n};
      }
      UndoneAll(assign, prev);
    }

    /** The profile a node runs and the hash of its canonical bytes. */
    method ProfileForNode(node: text) returns (r: Option<(text, seq<Bytes.byte>)>)
      requires Holds()
      ensures r.Some? <==> node in assign
      ensures r.Some? ==> assign[node] == r.value.0 && r.value.0 in profiles
      ensures r.Some? ==> r.value.1 == c.hash(profiles[r.value.0].raw)
    {
      if node !in assign {
        return None;
      }
      var id := assign[node];
      assert GoodEntry(c, id, profiles[id]);
      if id !in profiles {
        return None;
      }
      return Some((id, profiles[id].hash));
    }
  }

  /** Assignments after undoing: the sentinel deletes, any other value is put back. */
  function Restored(a: Assignments, prev: map<text, text>): Assignments {
    map n | n in a.Keys + prev.Keys && (n in prev ==> prev[n] != ABSENT) :: if n in prev then prev[n] else a[n]
  }

  function Pending(prev: map<text, text>, todo: set<text>): map<text, text> {
    map n | n in prev && n in todo :: prev[n]
  }

  lemma UndoneAll(a: Assignments, prev: map<text, text>)
    ensures Pending(prev, prev.Keys) == prev
    ensures Restored(a, Pending(prev, {})) == a
  {
  }

  lemma UndoOne(a: Assignments, prev: map<text, text>, todo: set<text>, n: text)
    requires todo <= prev.Keys && n in todo
    ensures Restored(a, Pending(prev, todo)) ==
              Restored(if prev[n] == ABSENT then a - {n} else a[n := prev[n]], Pending(prev, todo - {n}))
  {
  }

  /** The values before the call, with a sentinel for none. */
  ghost predicate Remembers(a: Assignments, nodes: seq<text>, prev: map<text, text>) {
    && (forall n :: n in prev <==> n in nodes)
    && (forall n :: n in prev ==> prev[n] == if n in a then a[n] else ABSENT)
  }

  lemma RemembersOneMore(a: Assignments, nodes: seq<text>, i: nat, prev: map<text, text>)
    requires i < |nodes| && Remembers(a, nodes[..i], prev)
    ensures Remembers(a, nodes[..i + 1], prev[nodes[i] := if nodes[i] in a then a[nodes[i]] else ABSENT])
  {
    assert nodes[..i + 1] == nodes[..i] + [nodes[i]];
  }

  /** Undoing an assignment of many nodes gives back the assignments before it. */
  lemma RolledBack(c: Codec, s: Store, nodes: seq<text>, to: text, prev: map<text, text>)
    requires Sound(c, s)
    requires Remembers(s.assign, nodes, prev)
    ensures Restored(Assigned(s.assign, nodes, to), prev) == s.assign
  {
    hide Sound;
    forall n | n in s.assign ensures s.assign[n] != ABSENT {
      SentinelIsNoProfile(c, s, n);
    }
  }

  lemma PreviousValue(c: Codec, s: Store, nodes: seq<text>, prev: map<text, text>, n: text)
    requires Sound(c, s) && Remembers(s.assign, nodes, prev) && n in nodes
    ensures n in prev && AssignedTo(s.assign, n) == if prev[n] == ABSENT then "" else prev[n]
  {
    if n in s.assign {
      SentinelIsNoProfile(c, s, n);
    }
  }

  lemma AssignedOneMore(a: Assignments, nodes: seq<text>, i: nat, to: text)
    requires i < |nodes|
    ensures Assigned(a, nodes[..i + 1], to) == Assigned(a, nodes[..i], to)[nodes[i] := to]
  {
    assert nodes[..i + 1] == nodes[..i] + [nodes[i]];
  }

  /** Undoing one assignment gives back the assignments before it. */
  lemma AssignUndone(a: Assignments, node: text, to: text)
    ensures var now := if to == "" then a - {node} else a[node := to];
            (if node in a then now[node := a[node]] else now - {node}) == a
  {
  }

  lemma AssignedNone(a: Assignments, to: text)
    ensures Assigned(a, [], to) == a
    ensures Remembers(a, [], map[])
  {
  }

  lemma RecordedNone(h: Histories, a: Assignments, to: text)
    ensures Recorded(h, a, [], to) == h
  {
  }

  lemma EntryIsOfParse(c: Codec, raw: Raw)
    requires Parse(c, raw).Some?
    ensures EntryOf(c, raw).raw == Parse(c, raw).value.canon
  {
  }
}
