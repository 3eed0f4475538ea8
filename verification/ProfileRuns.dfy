/** What holds of the profile store over every run of calls, failing saves and restarts. */
module ProfileRuns {
  import opened Basics
  import opened Text
  import opened ProfileParse
  import opened ProfileStore

  function Run(c: Codec, s: Store, calls: seq<Call>): Store {
    if calls == [] then s else Step(c, Run(c, s, calls[..|calls| - 1]), calls[|calls| - 1]).0
  }

  /** Restarting a mirrored store brings back its profiles and assignments. */
  lemma RestartReproduces(c: Codec, s: Store)
    requires Sound(c, s) && Mirrored(c, s) && s.filed
    ensures var r := Loaded(c, s.filed, s.disk);
            r.profiles == s.profiles && r.assign == s.assign && r.disk == s.disk && r.filed
    ensures s.disk.Some? ==>
              var saved := s.disk.value.history;
              Loaded(c, s.filed, s.disk).history == map n | n in saved :: LastFew(saved[n])
  {
    hide Parse, ValidId, LastFew;
    if s.disk.Some? {
      var d, r := s.disk.value, Loaded(c, s.filed, s.disk);
      LoadedParts(c, d);
      forall id | id in s.profiles ensures Loads(c, d, id) && EntryOf(c, d.profiles[id]) == s.profiles[id] {
        assert GoodEntry(c, id, s.profiles[id]);
      }
      assert r.profiles == s.profiles;
      assert r.assign == s.assign;
    }
  }

  /** Each call leaves the profiles and assignments of the file equal to those of memory. */
  lemma StepMirrored(c: Codec, s: Store, call: Call)
    requires Faithful(c) && Sound(c, s) && Mirrored(c, s)
    ensures Mirrored(c, Step(c, s, call).0)
  {
    hide Parse, Faithful, EntryOf, Recorded, Loaded, Assigned, Sound;
    match call {
      case Put(raw, ok) =>
      case Delete(id, ok) =>
      case Assign(node, to, ok, logs) =>
      case AssignMany(nodes, to, ok, logs) =>
      case Restart =>
        if s.filed {
          RestartReproduces(c, s);
          RestartMirrored(c, s);
        } else {
          LoadsNothing(c, s.filed, s.disk);
        }
    }
  }

  lemma RestartMirrored(c: Codec, s: Store)
    requires Mirrored(c, s) && s.filed
    requires var r := Loaded(c, s.filed, s.disk);
             r.profiles == s.profiles && r.assign == s.assign && r.disk == s.disk && r.filed
    ensures Mirrored(c, Loaded(c, s.filed, s.disk))
  {
    if s.disk.None? {
      LoadsNothing(c, s.filed, s.disk);
    }
  }

  /** From an empty store every run keeps all assigned profiles, correct hashes, and memory equal to the file. */
  lemma {:induction false} RunSound(c: Codec, filed: bool, calls: seq<Call>)
    requires Faithful(c)
    ensures var s := Run(c, Empty(filed, None), calls); Sound(c, s) && Mirrored(c, s) && s.filed == filed
  {
    hide Parse, Faithful, Sound, Mirrored, Recorded, Assigned, Written;
    if calls == [] {
      EmptySound(c, filed);
    } else {
      var front := calls[..|calls| - 1];
      RunSound(c, filed, front);
      StepSound(c, Run(c, Empty(filed, None), front), calls[|calls| - 1]);
      StepMirrored(c, Run(c, Empty(filed, None), front), calls[|calls| - 1]);
    }
  }

  lemma EmptySound(c: Codec, filed: bool)
    ensures Sound(c, Empty(filed, None)) && Mirrored(c, Empty(filed, None))
  {
  }

  // ---------------------------------------------------------------- histories

  /** Every change changes the value, and starts from the value the one before it set. */
  ghost predicate Linked(h: seq<Change>) {
    && (forall i :: 0 <= i < |h| ==> h[i].from != h[i].to)
    && (forall i, j :: 0 <= i && j == i + 1 && j < |h| ==> h[j].from == h[i].to)
  }

  /** The value after the last change; empty before the first. */
  function Tip(h: seq<Change>): text {
    if h == [] then "" else h[|h| - 1].to
  }

  ghost predicate NodeChained(s: Store, n: text) {
    var h := HistoryOf(s.history, n);
    |h| <= MAX_HISTORY && Linked(h) && Tip(h) == AssignedTo(s.assign, n)
  }

  /** Each node's history is linked, short, and ends in what is assigned now. */
  ghost predicate Chained(s: Store) {
    forall n: text :: NodeChained(s, n)
  }

  /** The file has the history of memory. */
  ghost predicate Logged(s: Store) {
    s.filed && s.disk.Some? ==> s.disk.value.history == s.history
  }

  lemma LastFewLinked(h: seq<Change>)
    requires Linked(h)
    ensures Linked(LastFew(h)) && Tip(LastFew(h)) == Tip(h)
  {
  }

  lemma LinkedOneMore(h: seq<Change>, x: Change)
    requires Linked(h) && x.from == Tip(h) && x.from != x.to && (h == [] ==> x.from == "")
    ensures Linked(h + [x]) && Tip(h + [x]) == x.to
  {
    var h2 := h + [x];
    assert forall i :: 0 <= i < |h| ==> h2[i] == h[i];
  }

  /** The same change twice is not linked, even after old changes are dropped. */
  lemma RepeatedNotLinked(h: seq<Change>, x: Change, k: nat)
    requires k >= 2 && x.from != x.to
    ensures !Linked(LastFew(h + Repeat(x, k)))
  {
    var all := h + Repeat(x, k);
    var r := LastFew(all);
    assert r[|r| - 1] == all[|all| - 1] == x && r[|r| - 2] == all[|all| - 2] == x;
    var i, j := |r| - 2, |r| - 1;
    assert j == i + 1 && r[j].from != r[i].to;
  }

  /** One node after an assignment: linked exactly when its change is recorded at most once. */
  lemma RecordedLinked(h: Histories, a: Assignments, nodes: seq<text>, to: text, n: text)
    requires var was := HistoryOf(h, n); |was| <= MAX_HISTORY && Linked(was) && Tip(was) == AssignedTo(a, n)
    ensures var r := RecordedAt(h, a, nodes, to, n);
      && |r| <= MAX_HISTORY
      && (Linked(r) <==> multiset(nodes)[n] <= 1 || AssignedTo(a, n) == to)
      && (Linked(r) ==> Tip(r) == if n in nodes then to else AssignedTo(a, n))
  {
    hide Linked, Tip;
    if n in nodes && AssignedTo(a, n) != to {
      var was, x, k := HistoryOf(h, n), Change(AssignedTo(a, n), to), multiset(nodes)[n];
      if k == 1 {
        assert Repeat(x, k) == [x];
        TipOfNone(was);
        LinkedOneMore(was, x);
        LastFewLinked(was + [x]);
      } else {
        RepeatedNotLinked(was, x, k);
      }
    } else {
      assert n !in nodes ==> multiset(nodes)[n] == 0;
    }
  }

  lemma TipOfNone(h: seq<Change>)
    ensures h == [] ==> Tip(h) == ""
  {
  }

  /** No node that has another profile is named twice. */
  ghost predicate NamedOnce(a: Assignments, nodes: seq<text>, to: text) {
    forall n :: n in nodes && AssignedTo(a, n) != to ==> multiset(nodes)[n] == 1
  }

  lemma RecordedChained(s: Store, nodes: seq<text>, to: text, after: Store)
    requires Chained(s) && after.history == Recorded(s.history, s.assign, nodes, to)
    requires forall n: text :: AssignedTo(after.assign, n) == if n in nodes then to else AssignedTo(s.assign, n)
    ensures Chained(after) <==> NamedOnce(s.assign, nodes, to)
  {
    hide Linked, Tip, RecordedAt, Recorded, AssignedTo, HistoryOf;
    forall n: text
      ensures NodeChained(after, n) <==> (n in nodes && AssignedTo(s.assign, n) != to ==> multiset(nodes)[n] == 1)
    {
      assert NodeChained(s, n);
      RecordedLinked(s.history, s.assign, nodes, to, n);
      RecordedHistory(s.history, s.assign, nodes, to, n);
      assert n in nodes <==> multiset(nodes)[n] > 0;
    }
  }

  lemma AssignedToAfter(c: Codec, s: Store, call: Call)
    requires call.Assign? || call.AssignMany?
    requires Step(c, s, call).1 == Done
    ensures var nodes := if call.Assign? then [call.node] else call.nodes;
      && (forall n: text ::
            AssignedTo(Step(c, s, call).0.assign, n) == if n in nodes then call.to else AssignedTo(s.assign, n))
      && Step(c, s, call).0.history == Recorded(s.history, s.assign, nodes, call.to)
  {
    hide Recorded, Written;
  }

  /**
   * Naming a node more than once in one assignment of many nodes breaks its history, unless it runs
   * that profile already; nothing else does, apart from restarts.
   */
  lemma AssignManyChained(c: Codec, s: Store, nodes: seq<text>, to: text, ok: bool, logs: bool)
    requires Chained(s)
    ensures var (after, outcome) := Step(c, s, AssignMany(nodes, to, ok, logs));
            Chained(after) <==> outcome != Done || NamedOnce(s.assign, nodes, to)
  {
    hide Chained, Recorded, NamedOnce, AssignedTo, Written;
    var call := AssignMany(nodes, to, ok, logs);
    if Step(c, s, call).1 == Done {
      AssignedToAfter(c, s, call);
      RecordedChained(s, nodes, to, Step(c, s, call).0);
    }
  }

  lemma AssignChained(c: Codec, s: Store, node: text, to: text, ok: bool, logs: bool)
    requires Chained(s)
    ensures Chained(Step(c, s, Assign(node, to, ok, logs)).0)
  {
    hide Chained, Recorded, AssignedTo, Written;
    var call := Assign(node, to, ok, logs);
    if Step(c, s, call).1 == Done {
      AssignedToAfter(c, s, call);
      assert multiset([node])[node] == 1;
      assert NamedOnce(s.assign, [node], to);
      RecordedChained(s, [node], to, Step(c, s, call).0);
    }
  }

  /** Histories differ only if some node of the call changed its value. */
  lemma RecordedDiffers(h: Histories, a: Assignments, nodes: seq<text>, to: text)
    requires Recorded(h, a, nodes, to) != h
    ensures exists n :: n in nodes && AssignedTo(a, n) != to
  {
    hide Recorded, AssignedTo;
    if forall n :: n in nodes ==> AssignedTo(a, n) == to {
      RecordedSame(h, a, nodes, to);
    }
  }

  lemma RecordedSame(h: Histories, a: Assignments, nodes: seq<text>, to: text)
    requires forall n :: n in nodes ==> AssignedTo(a, n) == to
    ensures Recorded(h, a, nodes, to) == h
  {
  }

  /** A history the file lacks shows: some node's saved history does not end in what is assigned. */
  ghost predicate LagShows(s: Store) {
    && (s.filed && s.disk.Some? ==> forall n: text :: |HistoryOf(s.disk.value.history, n)| <= MAX_HISTORY)
    && (!Logged(s) ==> exists n: text :: Tip(HistoryOf(s.disk.value.history, n)) != AssignedTo(s.assign, n))
  }

  /** What a run keeps as long as its histories are chained. */
  ghost predicate Kept(c: Codec, s: Store) {
    Sound(c, s) && Mirrored(c, s) && Chained(s) && LagShows(s)
  }

  /** With the history of memory in the file a restart changes nothing; without it the chain breaks. */
  lemma RestartChained(c: Codec, s: Store)
    requires Kept(c, s)
    ensures Chained(Loaded(c, s.filed, s.disk)) <==> Logged(s)
    ensures Logged(s) && s.filed && s.disk.Some? ==> Loaded(c, s.filed, s.disk) == s
  {
    hide Sound, Linked, Tip, AssignedTo, Loaded, Mirrored;
    var r := Loaded(c, s.filed, s.disk);
    if !s.filed || s.disk.None? {
      LoadsNothing(c, s.filed, s.disk);
      EmptyChained(s.filed, s.disk);
    } else {
      RestartReproduces(c, s);
      LoadIsStore(c, s);
      var d := s.disk.value;
      forall n | n in d.history ensures LastFew(d.history[n]) == d.history[n] {
        assert |HistoryOf(d.history, n)| <= MAX_HISTORY;
      }
      assert r.history == d.history;
      if !Logged(s) {
        var n: text :| Tip(HistoryOf(d.history, n)) != AssignedTo(s.assign, n);
        assert !NodeChained(r, n);
      }
    }
  }

  lemma LoadIsStore(c: Codec, s: Store)
    requires s.filed && s.disk.Some?
    ensures var r := Loaded(c, s.filed, s.disk); r == Store(r.profiles, r.assign, r.history, s.filed, s.disk)
  {
  }

  lemma EmptyChained(filed: bool, disk: Option<Disk>)
    ensures Chained(Empty(filed, disk))
  {
  }

  /** A call that keeps the chain: no node renamed twice, and no restart while the file lacks history. */
  ghost predicate Calm(s: Store, call: Call) {
    && (call.AssignMany? ==> NamedOnce(s.assign, call.nodes, call.to))
    && (call.Restart? ==> Logged(s))
  }

  lemma ChainedShort(s: Store, n: text)
    requires Chained(s)
    ensures |HistoryOf(s.history, n)| <= MAX_HISTORY && Tip(HistoryOf(s.history, n)) == AssignedTo(s.assign, n)
  {
    assert NodeChained(s, n);
  }

  lemma StepLag(c: Codec, s: Store, call: Call)
    requires Chained(s) && LagShows(s) && Chained(Step(c, s, call).0) && Step(c, s, call).1 == Done
    requires call.Assign? || call.AssignMany?
    ensures LagShows(Step(c, s, call).0)
  {
    hide Chained, Tip, AssignedTo, HistoryOf, Recorded;
    var after := Step(c, s, call).0;
    var nodes := if call.Assign? then [call.node] else call.nodes;
    AssignedToAfter(c, s, call);
    if s.filed {
      assert after.disk.Some? && after.disk.value.history == if call.logs then after.history else s.history;
      forall n: text ensures |HistoryOf(after.disk.value.history, n)| <= MAX_HISTORY {
        ChainedShort(s, n);
        ChainedShort(after, n);
      }
      if after.disk.value.history != after.history {
        RecordedDiffers(s.history, s.assign, nodes, call.to);
        var n :| n in nodes && AssignedTo(s.assign, n) != call.to;
        ChainedShort(s, n);
        assert Tip(HistoryOf(after.disk.value.history, n)) != AssignedTo(after.assign, n);
      }
    }
  }

  lemma SavedLag(c: Codec, s: Store)
    requires Chained(s)
    ensures LagShows(Save(c, s, true))
  {
    hide Tip;
    forall n: text ensures |HistoryOf(s.history, n)| <= MAX_HISTORY {
      ChainedShort(s, n);
    }
  }

  lemma StepKept(c: Codec, s: Store, call: Call)
    requires Faithful(c) && Kept(c, s) && Calm(s, call)
    ensures Kept(c, Step(c, s, call).0)
  {
    hide Parse, Faithful, Sound, Mirrored, Recorded, Assigned, EntryOf, Written, NamedOnce, Chained, LagShows, Loaded;
    StepSound(c, s, call);
    StepMirrored(c, s, call);
    match call {
      case Put(raw, ok) =>
        if Step(c, s, call).1 == Done {
          var t := s.(profiles := Step(c, s, call).0.profiles);
          SameChained(s, t);
          SameChained(s, Save(c, t, true));
          SavedLag(c, t);
        }
      case Delete(id, ok) =>
        if Step(c, s, call).1 == Done {
          var t := s.(profiles := Step(c, s, call).0.profiles);
          SameChained(s, t);
          SameChained(s, Save(c, t, true));
          SavedLag(c, t);
        }
      case Assign(node, to, ok, logs) =>
        AssignChained(c, s, node, to, ok, logs);
        if Step(c, s, call).1 == Done {
          StepLag(c, s, call);
        }
      case AssignMany(nodes, to, ok, logs) =>
        AssignManyChained(c, s, nodes, to, ok, logs);
        if Step(c, s, call).1 == Done {
          StepLag(c, s, call);
        }
      case Restart =>
        RestartChained(c, s);
        if !s.filed || s.disk.None? {
          LoadsNothing(c, s.filed, s.disk);
          EmptyLag(s.filed, s.disk);
        }
    }
  }

  lemma EmptyLag(filed: bool, disk: Option<Disk>)
    requires !filed || disk.None?
    ensures LagShows(Empty(filed, disk))
  {
  }

  lemma SameChained(s: Store, t: Store)
    requires Chained(s) && s.history == t.history && s.assign == t.assign
    ensures Chained(t)
  {
    forall n: text ensures NodeChained(t, n) {
      assert NodeChained(s, n);
    }
  }

  ghost predicate CalmRun(c: Codec, filed: bool, calls: seq<Call>) {
    forall i :: 0 <= i < |calls| ==> Calm(Run(c, Empty(filed, None), calls[..i]), calls[i])
  }

  /** After every calm run from an empty store each history is linked and ends in the current assignment. */
  lemma {:induction false} RunChained(c: Codec, filed: bool, calls: seq<Call>)
    requires Faithful(c) && CalmRun(c, filed, calls)
    ensures Kept(c, Run(c, Empty(filed, None), calls))
  {
    hide Parse, Faithful, Kept, Calm, Step;
    if calls == [] {
      EmptyKept(c, filed);
    } else {
      var front := calls[..|calls| - 1];
      forall i | 0 <= i < |front| ensures Calm(Run(c, Empty(filed, None), front[..i]), front[i]) {
        assert front[..i] == calls[..i];
      }
      RunChained(c, filed, front);
      StepKept(c, Run(c, Empty(filed, None), front), calls[|calls| - 1]);
    }
  }

  lemma EmptyKept(c: Codec, filed: bool)
    ensures Kept(c, Empty(filed, None))
  {
    EmptySound(c, filed);
    EmptyChained(filed, None);
  }

  /** A node named twice in one request: its history then holds two changes from the same value. */
  lemma NamedTwiceBreaks(c: Codec, filed: bool, raw: Raw, node: text)
    requires Faithful(c) && Parse(c, raw).Some?
    ensures var id := Parse(c, raw).value.profile.id;
            !Chained(Run(c, Empty(filed, None), [Put(raw, true), AssignMany([node, node], id, true, true)]))
  {
    hide Parse, Faithful, Chained, EntryOf, Recorded, Assigned, Written;
    var id := Parse(c, raw).value.profile.id;
    var calls := [Put(raw, true), AssignMany([node, node], id, true, true)];
    var s0 := Empty(filed, None);
    var s1 := Step(c, s0, calls[0]).0;
    assert calls[..1] == [calls[0]] && calls[..1][..0] == [];
    assert Run(c, s0, calls[..1]) == s1;
    EmptyChained(filed, None);
    SameChained(s0, s1);
    AssignManyChained(c, s1, [node, node], id, true, true);
    IdNotEmpty(c, raw);
    assert node in [node, node] && multiset([node, node])[node] == 2 && AssignedTo(s1.assign, node) != id;
  }

  lemma RunNone(c: Codec, s: Store)
    ensures Run(c, s, []) == s
  {
  }

  lemma RunMore(c: Codec, s: Store, calls: seq<Call>, call: Call)
    ensures Run(c, s, calls + [call]) == Step(c, Run(c, s, calls), call).0
  {
    hide Step;
    assert (calls + [call])[..|calls|] == calls;
  }

  /** A restart after an assignment whose history was not saved: the history no longer ends in what is assigned. */
  lemma UnsavedHistoryBreaks(c: Codec, raw: Raw, node: text)
    requires Faithful(c) && Parse(c, raw).Some?
    ensures var id := Parse(c, raw).value.profile.id;
            !Chained(Run(c, Empty(true, None), [Put(raw, true), Assign(node, id, true, false), Restart]))
  {
    hide Parse, Faithful, Chained, EntryOf, Written, Loaded, Kept, Logged, Recorded, RecordedAt, Run;
    var id := Parse(c, raw).value.profile.id;
    var calls := [Put(raw, true), Assign(node, id, true, false), Restart];
    var s0 := Empty(true, None);
    var s1 := Step(c, s0, calls[0]).0;
    var s2 := Step(c, s1, calls[1]).0;
    RunNone(c, s0);
    RunMore(c, s0, [], calls[0]);
    RunMore(c, s0, [calls[0]], calls[1]);
    RunMore(c, s0, [calls[0], calls[1]], calls[2]);
    assert [] + [calls[0]] == [calls[0]] && [calls[0]] + [calls[1]] == [calls[0], calls[1]];
    assert [calls[0], calls[1]] + [calls[2]] == calls;
    EmptyKept(c, true);
    StepKept(c, s0, calls[0]);
    StepKept(c, s1, calls[1]);
    IdNotEmpty(c, raw);
    NotLogged(c, s1, node, id);
    RestartChained(c, s2);
  }

  lemma NotLogged(c: Codec, s: Store, node: text, to: text)
    requires s.filed && to in s.profiles && node !in s.assign && to != "" && s.history == map[]
    ensures !Logged(Step(c, s, Assign(node, to, true, false)).0)
  {
    hide Recorded, LastFew, RecordedAt;
    var call := Assign(node, to, true, false);
    AssignedToAfter(c, s, call);
    RecordedHistory(s.history, s.assign, [node], to, node);
    RecordsFirst(s.history, s.assign, node, to);
  }

  lemma RecordsFirst(h: Histories, a: Assignments, node: text, to: text)
    requires h == map[] && node !in a && to != ""
    ensures RecordedAt(h, a, [node], to, node) != []
  {
    assert multiset([node])[node] == 1;
  }

  lemma IdNotEmpty(c: Codec, raw: Raw)
    requires Parse(c, raw).Some?
    ensures Parse(c, raw).value.profile.id != ""
  {
  }
}
