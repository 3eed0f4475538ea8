/** What each call of the profile store does, told by what a caller can see before and after it. */
module ProfileCalls {
  import opened Basics
  import opened Text
  import opened NameText
  import opened ProfileParse
  import opened ProfileStore

  /** A store without a file always saves. */
  predicate Writes(s: Store, ok: bool) {
    s.filed ==> ok
  }

  ghost predicate SameProfilesBut(s: Store, t: Store, id: text) {
    forall other: text :: other != id ==>
      (other in t.profiles <==> other in s.profiles)
      && (other in s.profiles ==> t.profiles[other] == s.profiles[other])
  }

  ghost predicate SameAssignmentsBut(s: Store, t: Store, nodes: seq<text>) {
    forall other: text :: other !in nodes ==>
      (other in t.assign <==> other in s.assign) && (other in s.assign ==> t.assign[other] == s.assign[other])
  }

  ghost predicate Runs(s: Store, node: text, to: text) {
    node in s.assign && s.assign[node] == to
  }

  /** Put: an accepted document is stored under its id with its canonical bytes and their hash; nothing else changes. */
  lemma PutSeen(c: Codec, s: Store, raw: Raw, ok: bool)
    ensures var (t, outcome) := Step(c, s, Put(raw, ok));
            && (outcome == Invalid <==> Parse(c, raw).None?)
            && (outcome == Done <==> Parse(c, raw).Some? && Writes(s, ok))
            && (outcome != Done ==> t == s)
            && (outcome == Done ==>
                  var r := Parse(c, raw).value;
                  && r.profile.id in t.profiles
                  && t.profiles[r.profile.id].raw == r.canon && t.profiles[r.profile.id].hash == c.hash(r.canon)
                  && SameProfilesBut(s, t, r.profile.id) && t.assign == s.assign && t.history == s.history)
  {
    hide Parse;
  }

  /** Delete: a profile that exists and that no node runs is gone afterwards, and nothing else changes. */
  lemma DeleteSeen(c: Codec, s: Store, id: text, ok: bool)
    ensures var (t, outcome) := Step(c, s, Delete(id, ok));
            && (outcome == NotFound <==> id !in s.profiles)
            && (outcome == InUse <==> id in s.profiles && exists n :: Runs(s, n, id))
            && (outcome == Done <==> id in s.profiles && (forall n :: !Runs(s, n, id)) && Writes(s, ok))
            && (outcome != Done ==> t == s)
            && (outcome == Done ==>
                  id !in t.profiles && SameProfilesBut(s, t, id) && t.assign == s.assign && t.history == s.history)
  {
    if id in s.assign.Values {
      var n :| n in s.assign && s.assign[n] == id;
      assert Runs(s, n, id);
    }
    if n :| Runs(s, n, id) {
      assert s.assign[n] in s.assign.Values;
    }
  }

  /** The history is the old one and one more change, the last fifty of them. */
  ghost predicate OneMore(before: seq<Change>, after: seq<Change>, x: Change) {
    && |after| == (if |before| < 50 then |before| + 1 else 50)
    && after[|after| - 1] == x
    && forall i :: 0 <= i < |after| - 1 ==> after[i] == before[|before| + 1 - |after| + i]
  }

  /** Assign: the node runs the named profile, or none, and a change of value is its last recorded one. */
  lemma AssignSeen(c: Codec, s: Store, node: text, to: text, ok: bool, logs: bool)
    requires |HistoryOf(s.history, node)| <= 50
    ensures var (t, outcome) := Step(c, s, Assign(node, to, ok, logs));
            && (outcome == NotFound <==> to != "" && to !in s.profiles)
            && (outcome == Done <==> (to == "" || to in s.profiles) && Writes(s, ok))
            && (outcome != Done ==> t == s)
            && (outcome == Done ==>
                  && (if to == "" then node !in t.assign else Runs(t, node, to))
                  && SameAssignmentsBut(s, t, [node]) && t.profiles == s.profiles
                  && (forall n: text :: n != node ==> HistoryOf(t.history, n) == HistoryOf(s.history, n))
                  && var before := AssignedTo(s.assign, node);
                  if before == to then HistoryOf(t.history, node) == HistoryOf(s.history, node)
                  else OneMore(HistoryOf(s.history, node), HistoryOf(t.history, node), Change(before, to)))
  {
    hide Written, RecordedAt, Recorded, HistoryOf, OneMore, AssignedTo;
    forall n: text
      ensures n != node ==> HistoryOf(Recorded(s.history, s.assign, [node], to), n) == HistoryOf(s.history, n)
    {
      RecordedHistory(s.history, s.assign, [node], to, n);
      if n != node {
        NotNamed(s.history, s.assign, [node], to, n);
      }
    }
    RecordedOnce(s.history, s.assign, node, to);
  }

  lemma RecordedOnce(h: Histories, a: Assignments, node: text, to: text)
    requires |HistoryOf(h, node)| <= 50
    ensures var before, after := HistoryOf(h, node), HistoryOf(Recorded(h, a, [node], to), node);
            if AssignedTo(a, node) == to then after == before
            else OneMore(before, after, Change(AssignedTo(a, node), to))
  {
    hide Recorded, HistoryOf, AssignedTo;
    RecordedHistory(h, a, [node], to, node);
    OneRepeat(Change(AssignedTo(a, node), to), node);
  }

  lemma OneRepeat(x: Change, node: text)
    ensures Repeat(x, multiset([node])[node]) == [x]
  {
    assert multiset([node])[node] == 1;
  }

  /** AssignMany: all the named nodes run the named profile afterwards, and no other node's assignment changes. */
  lemma AssignManySeen(c: Codec, s: Store, nodes: seq<text>, to: text, ok: bool, logs: bool)
    ensures var (t, outcome) := Step(c, s, AssignMany(nodes, to, ok, logs));
            && (outcome == NotFound <==> to !in s.profiles)
            && (outcome == Done <==> to in s.profiles && Writes(s, ok))
            && (outcome != Done ==> t == s)
            && (outcome == Done ==>
                  && (forall n :: n in nodes ==> Runs(t, n, to))
                  && SameAssignmentsBut(s, t, nodes) && t.profiles == s.profiles
                  && (forall n: text :: n !in nodes ==> HistoryOf(t.history, n) == HistoryOf(s.history, n)))
  {
    hide Written, RecordedAt, Recorded;
    var (t, outcome) := Step(c, s, AssignMany(nodes, to, ok, logs));
    if outcome == Done {
      forall n: text | n !in nodes ensures HistoryOf(t.history, n) == HistoryOf(s.history, n) {
        RecordedHistory(s.history, s.assign, nodes, to, n);
        NotNamed(s.history, s.assign, nodes, to, n);
      }
    }
  }

  lemma NotNamed(h: Histories, a: Assignments, nodes: seq<text>, to: text, n: text)
    requires n !in nodes
    ensures RecordedAt(h, a, nodes, to, n) == HistoryOf(h, n)
  {
  }

  // ---------------------------------------------------------------- what is accepted

  /** A rule of one of the three kinds, with the fields its kind needs. */
  ghost predicate UsableRule(r: Rule) {
    match r.kind
    case "ip_set" => r.name != "" && r.file != ""
    case "cname" => r.pattern != "" && r.target != ""
    case "alias" => r.ipSet != "" && r.targets != []
    case _ => false
  }

  /** A name that is more than white space, and at most 200 characters long. */
  ghost predicate UsableName(name: text) {
    |name| <= 200 && exists i :: 0 <= i < |name| && !White(name[i])
  }

  /** Which documents are accepted, and what is kept of them: a missing list of rules becomes an empty one. */
  lemma ParseExactly(c: Codec, raw: Raw)
    ensures Parse(c, raw).Some? <==>
              && c.decode(raw).Some?
              && var d := c.decode(raw).value;
              && Slug(d.id) && UsableName(d.name)
              && (d.section.Some? ==> ValidSection(c.net, d.section.value))
              && (d.rules.Some? ==> forall r :: r in d.rules.value ==> UsableRule(r))
    ensures Parse(c, raw).Some? ==>
              var d, r := c.decode(raw).value, Parse(c, raw).value;
              && r.profile == d.(rules := Some(if d.rules == None then [] else d.rules.value))
              && r.canon == c.marshal(r.profile)
  {
    hide Slug, ValidSection, TrimSpace, White;
    if c.decode(raw).Some? {
      var d := c.decode(raw).value;
      BlankName(d.name);
      if d.rules.Some? {
        assert forall i :: 0 <= i < |d.rules.value| ==> d.rules.value[i] in d.rules.value;
      }
    }
  }

  lemma BlankName(name: text)
    ensures TrimSpace(name) == [] <==> forall i :: 0 <= i < |name| ==> White(name[i])
  {
    hide TrimSpace, White;
    var a, b := TrimSpaceIs(name);
    if TrimSpace(name) != [] {
      assert name[a] == TrimSpace(name)[0];
    }
  }

  /** A letter from a to z, a digit or a hyphen. */
  predicate SlugCode(x: char) {
    97 <= x as int <= 122 || 48 <= x as int <= 57 || x as int == 45
  }

  lemma SlugExactly(s: string)
    ensures Slug(s) <==> 1 <= |s| <= 40 && forall i :: 0 <= i < |s| ==> SlugCode(s[i])
  {
  }

  ghost predicate InBounds(v: Option<int>, lo: int, hi: int) {
    v == None || exists n :: v == Some(n) && lo <= n <= hi
  }

  /** Changing one setting of a valid section to a value keeps it valid exactly when that value is in its range. */
  lemma RangesExactly(net: Net, d: Section, v: Option<int>)
    requires ValidSection(net, d)
    ensures ValidSection(net, d.(ecsV4 := v)) <==> InBounds(v, 0, 32)
    ensures ValidSection(net, d.(ecsV6 := v)) <==> InBounds(v, 0, 128)
    ensures ValidSection(net, d.(maxQps := v)) <==> InBounds(v, 1, 100000)
    ensures ValidSection(net, d.(maxConns := v)) <==> InBounds(v, 1, 10000)
    ensures ValidSection(net, d.(maxQueries := v)) <==> InBounds(v, 1, 100000)
  {
    hide Slug;
  }

  /** The same for the lists and the block mode. */
  lemma ListsExactly(net: Net, d: Section, xs: seq<string>, us: seq<Upstream>, mode: string)
    requires ValidSection(net, d)
    ensures ValidSection(net, d.(blockMode := mode)) <==> mode in {"", "adguard", "rpz"}
    ensures ValidSection(net, d.(sinkholeV4 := xs)) <==> forall x :: x in xs ==> net.isV4(x)
    ensures ValidSection(net, d.(sinkholeV6 := xs)) <==> forall x :: x in xs ==> net.isV6(x)
    ensures ValidSection(net, d.(acl := xs)) <==> |xs| <= 256 && forall x :: x in xs ==> net.isPrefix(x)
    ensures ValidSection(net, d.(upstreams := us)) <==>
              |us| <= 64 && forall u :: u in us ==> Slug(u.name) && Slug(u.pool) && net.isAddrPort(u.address)
  {
    hide Slug;
  }

  /** The section without any setting is valid, so every valid section is reached by such changes. */
  lemma EmptyValid(net: Net)
    ensures ValidSection(net, Section("", [], [], [], [], None, None, None, None, None))
  {
  }
}
