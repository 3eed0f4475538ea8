/** Which records of a transfer are policy, told by their type and owner alone. */
module RpzPolicy {
  import opened Basics
  import opened Bytes
  import opened Text
  import opened NameText
  import opened RpzNames
  import opened RpzRecords
  import opened RpzSerial
  import opened RpzTransfer
  import opened RpzStream
  import RpzFile
  import opened RpzServe
  import opened Sorting
  import opened WireName

  /** An owner in the zone: the zone itself, or something and a dot in front of it. */
  ghost predicate InZone(owner: text, zone: text) {
    ToLower(owner) == zone || exists p: text :: ToLower(owner) == p + "." + zone
  }

  ghost predicate AllInZone(rs: seq<RR>, zone: text) {
    forall i :: 0 <= i < |rs| ==> InZone(rs[i].owner, zone)
  }

  /** This record puts the domain on the list: a CNAME, A or AAAA record of the domain under the zone. */
  predicate Lists(rr: RR, zone: text, d: text) {
    && rr.Rec? && (rr.rtype == Cname || rr.rtype == A || rr.rtype == Aaaa)
    && ToLower(rr.owner) == d + "." + zone && d != []
  }

  ghost predicate Listed(rs: seq<RR>, zone: text, d: text) {
    exists i :: 0 <= i < |rs| && Lists(rs[i], zone, d)
  }

  ghost predicate WireNames(rs: seq<RR>) {
    forall i :: 0 <= i < |rs| ==> IsName(rs[i].owner)
  }

  lemma SuffixIs(o: text, zone: text)
    ensures HasSuffix(o, "." + zone) <==> exists p: text :: o == p + "." + zone
  {
    if HasSuffix(o, "." + zone) {
      var p := o[..|o| - |zone| - 1];
      assert o == p + ("." + zone) == p + "." + zone;
    }
    if p: text :| o == p + "." + zone {
      assert o == p + ("." + zone);
      assert o[|o| - |zone| - 1..] == "." + zone;
    }
  }

  /** One record, by its type and its owner. */
  lemma PolicyOwnerIs(rr: RR, zone: text)
    requires IsName(rr.owner) && ZoneOk(zone) && zone != "."
    ensures PolicyOwner(rr, zone) == BadOwner <==> !InZone(rr.owner, zone)
    ensures forall d: text :: PolicyOwner(rr, zone) == Domain(d) <==> Lists(rr, zone, d)
  {
    hide ToLower, Fqdn, IsName, NormalizedOwner, HasSuffix;
    LowerName(rr.owner);
    LowerIdempotent(rr.owner);
    AbsoluteName(rr.owner);
    var o := ToLower(rr.owner);
    SuffixIs(o, zone);
    if HasSuffix(o, "." + zone) {
      ZoneStart(zone);
      OwnerInZone(o, zone);
      var n := NormalizedOwner(o, zone).name;
      OneFront(n, zone);
      forall d: text | o == d + "." + zone ensures d == n {
        SameFront(d, n, zone);
      }
    }
    ZoneIsNotInside(zone);
  }

  lemma ZoneStart(zone: text)
    requires ZoneOk(zone)
    ensures zone != []
  {
  }

  lemma OneFront(n: text, zone: text)
    requires DomainOk(n)
    ensures n != []
  {
  }

  lemma SameFront(a: text, b: text, zone: text)
    requires a + "." + zone == b + "." + zone
    ensures a == b
  {
    assert |a| == |b|;
    assert (a + "." + zone)[..|a|] == a && (b + "." + zone)[..|b|] == b;
  }

  /** A zone is shorter than any name under it. */
  lemma ZoneIsNotInside(zone: text)
    ensures forall p: text :: p + "." + zone != zone
  {
    forall p: text ensures p + "." + zone != zone {
      assert |p + "." + zone| > |zone|;
    }
  }

  /** The domains of a section are those its CNAME, A and AAAA records put under the zone; no other type counts. */
  lemma OwnersExactly(rs: seq<RR>, zone: text, d: text)
    requires WireNames(rs) && ZoneOk(zone) && zone != "."
    ensures d in Owners(rs, zone) <==> Listed(rs, zone, d)
  {
    hide Owners, PolicyOwner, Lists, ZoneOk, IsName;
    OwnersHas(rs, zone, d);
    forall i | 0 <= i < |rs| ensures PolicyOwner(rs[i], zone) == Domain(d) <==> Lists(rs[i], zone, d) {
      PolicyOwnerIs(rs[i], zone);
    }
  }

  /** A section is accepted exactly when every owner is in the zone, whatever the type of its record. */
  lemma OwnersOkExactly(rs: seq<RR>, zone: text)
    requires WireNames(rs) && ZoneOk(zone) && zone != "."
    ensures OwnersOk(rs, zone) <==> AllInZone(rs, zone)
  {
    hide PolicyOwner, InZone, ZoneOk, IsName;
    forall i | 0 <= i < |rs| ensures PolicyOwner(rs[i], zone) == BadOwner <==> !InZone(rs[i].owner, zone) {
      PolicyOwnerIs(rs[i], zone);
    }
  }

  /** No listed domain has a capital letter or is empty. */
  lemma OwnersAreLow(rs: seq<RR>, zone: text, d: text)
    requires WireNames(rs) && ZoneOk(zone) && zone != "." && d in Owners(rs, zone)
    ensures NoCapital(d) && d != []
  {
    hide Owners, ToLower, ZoneOk, IsName, Capital;
    OwnersExactly(rs, zone, d);
    var i :| 0 <= i < |rs| && Lists(rs[i], zone, d);
    LowerSame(rs[i].owner, []);
    assert forall j :: 0 <= j < |d| ==> d[j] == (d + "." + zone)[j];
  }

  // ---------------------------------------------------------------- whole transfers

  lemma WirePart(rs: seq<RR>, a: nat, b: nat)
    requires WireNames(rs) && a <= b <= |rs|
    ensures WireNames(rs[a..b])
  {
    hide IsName;
  }

  /** The SOA of this zone, in any case of letters. */
  ghost predicate IsSoaOf(rr: RR, zone: text) {
    rr.Soa? && SameName(rr.owner, zone)
  }

  /**
   * The parser on a full transfer, exactly: it is accepted if the first and the last record are SOAs of
   * the zone with one serial and every owner between them is in the zone; it then leads to that serial
   * and adds exactly the domains listed between.
   */
  lemma FullExactly(records: seq<RR>, zone: text, current: u32)
    requires WireNames(records) && ZoneOk(zone) && zone != "." && |records| >= 2 && !records[1].Soa?
    ensures var n, r := |records| - 1, ParseTransfer(records, zone, current);
            && (r.Ok? <==>
                  && IsSoaOf(records[0], zone) && IsSoaOf(records[n], zone) && records[n].serial == records[0].serial
                  && AllInZone(records[1..n], zone))
            && (r.Ok? ==>
                  && r.value.Some? && r.value.value.full && r.value.value.toSerial == records[0].serial
                  && r.value.value.deleted == [] && StrictlySorted(r.value.value.added)
                  && forall d: text :: d in r.value.value.added <==> Listed(records[1..n], zone, d))
  {
    hide PolicyOwner, InZone, Lists, ToLower, Fqdn, IsName, OwnersOk, Owners, SameName, ZoneSoa, StrictlySorted;
    ZoneText(zone);
    var n := |records| - 1;
    var body := records[1..n];
    WirePart(records, 1, n);
    OwnersOkExactly(body, zone);
    ZoneSoaExactly(records[0], zone);
    ZoneSoaExactly(records[n], zone);
    forall d: text ensures d in Owners(body, zone) <==> Listed(body, zone, d) {
      OwnersExactly(body, zone, d);
    }
    SortedIsSet(Owners(body, zone));
  }

  /** Parser and stream on no record or one: only the zone's SOA with the serial one has is accepted, as nothing new. */
  lemma ShortExactly(records: seq<RR>, zone: text, current: u32)
    requires ZoneOk(zone) && |records| <= 1
    ensures ParseTransfer(records, zone, current).Ok? <==>
              |records| == 1 && IsSoaOf(records[0], zone) && records[0].serial == current
    ensures ParseTransfer(records, zone, current).Ok? ==> ParseTransfer(records, zone, current).value.None?
    ensures Interpret(records, zone, current) == ParseTransfer(records, zone, current)
  {
    hide ToLower, Fqdn, IsName, SameName, ZoneSoa;
    ZoneText(zone);
    if records != [] {
      ZoneSoaExactly(records[0], zone);
    }
  }

  lemma SortedIsSet(s: set<text>)
    ensures forall d: text :: d in Sorted(s) <==> d in s
    ensures StrictlySorted(Sorted(s))
  {
    hide Sorted, StrictlySorted;
    assert forall d: text :: d in Sorted(s) <==> d in Elems(Sorted(s));
  }

  /** What a list of domains has after these difference sequences. */
  ghost predicate Present(diffs: seq<Diff>, zone: text, s: set<text>, d: text) {
    if diffs == [] then d in s
    else
      var last := diffs[|diffs| - 1];
      || Listed(last.adds, zone, d)
      || (Present(diffs[..|diffs| - 1], zone, s, d) && !Listed(last.dels, zone, d))
  }

  ghost predicate WireSections(diffs: seq<Diff>) {
    forall k :: 0 <= k < |diffs| ==> WireNames(diffs[k].dels) && WireNames(diffs[k].adds)
  }

  ghost predicate SectionsInZone(diffs: seq<Diff>, zone: text) {
    forall k :: 0 <= k < |diffs| ==> AllInZone(diffs[k].dels, zone) && AllInZone(diffs[k].adds, zone)
  }

  lemma {:induction false} ReplayExactly(diffs: seq<Diff>, zone: text, s: set<text>, d: text)
    requires WireSections(diffs) && ZoneOk(zone) && zone != "."
    ensures d in Replay(diffs, zone, s) <==> Present(diffs, zone, s, d)
  {
    hide Owners, Listed, WireNames, ZoneOk;
    if diffs != [] {
      var n := |diffs| - 1;
      ReplayExactly(diffs[..n], zone, s, d);
      OwnersExactly(diffs[n].dels, zone, d);
      OwnersExactly(diffs[n].adds, zone, d);
    }
  }

  lemma {:induction false} ChainSections(rs: seq<RR>, zone: text, from: u32, target: u32, diffs: seq<Diff>)
    requires IsChain(rs, zone, from, target, diffs) && WireNames(rs)
    requires ZoneOk(zone) && zone != "."
    ensures WireSections(diffs) && SectionsInZone(diffs, zone)
    decreases |diffs|
  {
    hide IsName, ZoneSoa, SerialGreater, OwnersOk, ZoneOk, InZone;
    var d := diffs[0];
    LeadsSpan(rs, zone, d);
    WirePart(rs, 1, 1 + |d.dels|);
    WirePart(rs, 2 + |d.dels|, 2 + |d.dels| + |d.adds|);
    OwnersOkExactly(d.dels, zone);
    OwnersOkExactly(d.adds, zone);
    if d.toSerial != target {
      WirePart(rs, Span(d), |rs|);
      ChainSections(rs[Span(d)..], zone, d.toSerial, target, diffs[1..]);
      forall k | 0 <= k < |diffs|
        ensures WireNames(diffs[k].dels) && WireNames(diffs[k].adds)
        ensures AllInZone(diffs[k].dels, zone) && AllInZone(diffs[k].adds, zone)
      {
        assert k > 0 ==> diffs[k] == diffs[1..][k - 1];
      }
    }
  }

  /** The parser on an increment: every owner is in the zone, and the last record that lists a domain decides on it. */
  lemma IncrementExactly(records: seq<RR>, zone: text, current: u32) returns (diffs: seq<Diff>)
    requires WireNames(records) && ZoneOk(zone) && zone != "."
    requires var r := ParseTransfer(records, zone, current); r.Ok? && r.value.Some? && !r.value.value.full
    ensures var delta := ParseTransfer(records, zone, current).value.value;
            && IsChain(records[1..], zone, current, delta.toSerial, diffs) && SectionsInZone(diffs, zone)
            && forall s: set<text>, d: text :: d in Apply(delta, s) <==> Present(diffs, zone, s, d)
  {
    hide Owners, OwnersOk, ZoneOk, IsChain, Changes, ParseChain, Replay, Present, WireNames, Apply;
    ZoneText(zone);
    diffs := IncrementalMeaning(records, zone, current);
    var delta := ParseTransfer(records, zone, current).value.value;
    WirePart(records, 1, |records|);
    assert records[1..|records|] == records[1..];
    ChainSections(records[1..], zone, current, delta.toSerial, diffs);
    forall s: set<text>, d: text ensures d in Apply(delta, s) <==> Present(diffs, zone, s, d) {
      ReplayExactly(diffs, zone, s, d);
    }
  }

  /** The stream stages exactly the listed domains, and only of records in the zone. */
  lemma {:induction false} StreamExactly(rs: seq<RR>, zone: text, serial: u32)
    requires WireNames(rs) && ZoneOk(zone) && zone != "." && StreamAll(rs, zone, serial).Ok?
    ensures AllInZone(rs, zone)
    ensures forall d: text :: d in StreamAll(rs, zone, serial).value.lines <==> Listed(rs, zone, d)
  {
    hide PolicyOwner, ToLower, ZoneOk, IsName, InZone, Lists;
    if rs != [] {
      var n := |rs| - 1;
      StreamExactly(rs[..n], zone, serial);
      PolicyOwnerIs(rs[n], zone);
      SoaInZone(rs[n], zone);
      assert forall i :: 0 <= i < n ==> rs[..n][i] == rs[i];
      forall d: text ensures Listed(rs, zone, d) <==> Listed(rs[..n], zone, d) || Lists(rs[n], zone, d) {
        ListedLast(rs, zone, d);
      }
    }
  }

  lemma SoaInZone(rr: RR, zone: text)
    ensures rr.Soa? && ToLower(rr.owner) == zone ==> InZone(rr.owner, zone)
    ensures rr.Soa? ==> forall d: text :: !Lists(rr, zone, d)
  {
  }

  lemma ListedLast(rs: seq<RR>, zone: text, d: text)
    requires rs != []
    ensures Listed(rs, zone, d) <==> Listed(rs[..|rs| - 1], zone, d) || Lists(rs[|rs| - 1], zone, d)
  {
    hide Lists;
    var n := |rs| - 1;
    assert forall i :: 0 <= i < n ==> rs[..n][i] == rs[i];
    if Listed(rs[..n], zone, d) {
      var i :| 0 <= i < n && Lists(rs[..n][i], zone, d);
      assert Lists(rs[i], zone, d);
    }
    if Listed(rs, zone, d) && !Lists(rs[n], zone, d) {
      var i :| 0 <= i < |rs| && Lists(rs[i], zone, d);
      assert Lists(rs[..n][i], zone, d);
    }
  }

  // ---------------------------------------------------------------- names and lines

  /** The text without one dot at its end. */
  function OneDotLess(s: text): text {
    if s != [] && s[|s| - 1] as int == 46 then s[..|s| - 1] else s
  }

  lemma SuffixDot(s: text)
    ensures TrimSuffix(s, ".") == OneDotLess(s)
  {
    if s != [] {
      assert s[|s| - 1..] == [s[|s| - 1]];
    }
  }

  /** Which texts are taken for domains, and for which: trimmed, one dot taken off, in lower case. */
  lemma NormalizeExactly(value: text, d: text)
    ensures NormalizePolicyDomain(value) == Some(d) <==>
              && d == ToLower(OneDotLess(TrimSpace(value))) && 1 <= |d| <= 253
              && (d == "." || DottedLabels(OneDotLess(d)))
  {
    hide ToLower, TrimSpace, Split, DottedLabels, TrimSuffix;
    SuffixDot(TrimSpace(value));
    LabelsAreDotted(OneDotLess(d));
    FqdnFront(d);
    SameLabels(OneDotLess(d));
  }

  lemma SameLabels(s: text)
    ensures LabelsOk(Split(s, '.')) <==> forall l :: l in Split(s, '.') ==> LabelLengthOk(l)
    ensures s == [] ==> !LabelsOk(Split(s, '.'))
  {
    var parts := Split(s, '.');
    if LabelsOk(parts) {
      assert forall i :: 0 <= i < |parts| ==> LabelOk(parts[i]);
    }
    assert forall i :: 0 <= i < |parts| ==> parts[i] in parts;
    if s == [] {
      assert !LabelOk(parts[0]);
    }
  }

  lemma FqdnFront(d: text)
    ensures var f := Fqdn(d); |f| >= 1 && f[..|f| - 1] == OneDotLess(d)
  {
    var f := Fqdn(d);
    if d != [] && d[|d| - 1] as int == 46 {
      assert d[|d| - 1..] == ".";
      assert f == d;
    } else {
      assert d != [] ==> d[|d| - 1..] == [d[|d| - 1]];
      assert f == d + ".";
      assert f[..|d|] == d;
    }
  }

  /** The case of letters makes no difference. */
  lemma NormalizeCase(a: text, b: text)
    requires SameName(a, b)
    ensures NormalizePolicyDomain(a) == NormalizePolicyDomain(b)
  {
    hide ToLower, TrimSpace, SameName, IsDomainName;
    LowerSame(a, b);
    LowerTrimSpace(a);
    LowerTrimSpace(b);
    LowerOneDot(TrimSpace(a));
    LowerOneDot(TrimSpace(b));
    SuffixDot(TrimSpace(a));
    SuffixDot(TrimSpace(b));
  }

  lemma LowerOneDot(s: text)
    ensures ToLower(OneDotLess(s)) == OneDotLess(ToLower(s))
  {
    if s != [] {
      assert LowerChar(s[|s| - 1]) as int == 46 <==> s[|s| - 1] as int == 46;
    }
  }

  /** What is taken for a domain is taken for itself again if and only if it ends in no dot and no white space. */
  lemma NormalizedTwice(value: text, d: text)
    requires NormalizePolicyDomain(value) == Some(d)
    ensures d != []
    ensures NormalizePolicyDomain(d) == Some(d) <==> d[|d| - 1] as int != 46 && !White(d[|d| - 1])
  {
    hide ToLower, TrimSpace, DottedLabels, White, Capital;
    NormalizeExactly(value, d);
    NormalizeExactly(d, d);
    LowerSame(OneDotLess(TrimSpace(value)), d);
    LowerSame(d, d);
    var x, y := TrimSpaceIs(d);
    if d[|d| - 1] as int != 46 && !White(d[|d| - 1]) {
      StartsDark(value, d);
      NothingTrimmed(d);
    } else if White(d[|d| - 1]) {
      assert x < y ==> TrimSpace(d)[y - x - 1] == d[y - 1];
      assert |TrimSpace(d)| < |d|;
    } else {
      DotIsDark();
    }
  }

  lemma DotIsDark()
    ensures !White('.')
  {
  }

  /** The text taken for a domain does not start with white space. */
  lemma StartsDark(value: text, d: text)
    requires d == ToLower(OneDotLess(TrimSpace(value))) && d != []
    ensures !White(d[0])
  {
    hide TrimSpace;
    var a, b := TrimSpaceIs(value);
    LowerLetter(TrimSpace(value)[0], TrimSpace(value)[0]);
  }

  lemma NothingTrimmed(d: text)
    requires d != [] && !White(d[0]) && !White(d[|d| - 1])
    ensures TrimSpace(d) == d
  {
    NoTrim(d);
  }

  /** How a line of the domain file is read: blank, or with # as its first character, it is skipped. */
  lemma LineExactly(line: text, d: text)
    ensures var t := TrimSpace(line);
            && (RpzFile.ReadLine(line) == RpzFile.SkipLine <==> t == [] || t[0] as int == 35)
            && (RpzFile.ReadLine(line) == RpzFile.DomainLine(d) <==>
                  t != [] && t[0] as int != 35 && NormalizePolicyDomain(t) == Some(d))
  {
    hide TrimSpace, NormalizePolicyDomain;
  }

  /** A text with two dots at its end keeps one of them, and only loses it the next time. */
  lemma TwoDots()
    ensures NormalizePolicyDomain("a..") == Some("a.") && NormalizePolicyDomain("a.") == Some("a")
  {
    hide TrimSpace, DottedLabels, Split, ToLower;
    var one, two, none: text := "a.", "a..", "a";
    NoTrim(two);
    NoTrim(one);
    OneLabel(none);
    LabelsAreDotted(none);
    assert OneDotLess(two) == one && OneDotLess(one) == none && OneDotLess(none) == none;
    LowerSame(one, one);
    LowerSame(none, none);
    NormalizeExactly(two, one);
    NormalizeExactly(one, none);
  }

  // ---------------------------------------------------------------- serving any file

  /** One line, whoever wrote it, is served as the record of the domain it is read as, or not at all. */
  lemma LineServed(line: text, zone: text)
    ensures RpzFile.ReadLine(line) == RpzFile.SkipLine ==> LineRecord(line, zone) == []
    ensures RpzFile.ReadLine(line).DomainLine? ==>
              LineRecord(line, zone) == [Rec(RpzFile.ReadLine(line).name + "." + zone, Cname)]
  {
    hide ToLower, TrimSpace, IsDomainName;
    var t := TrimSpace(line);
    TrimmedStays(line);
    SuffixDot(t);
    SuffixDot(ToLower(t));
    LowerOneDot(t);
  }

  /** The records of these domains under the zone, in order. */
  function Served(domains: seq<text>, zone: text): seq<RR> {
    if domains == [] then []
    else Served(domains[..|domains| - 1], zone) + [Rec(domains[|domains| - 1] + "." + zone, Cname)]
  }

  /** A served full zone has one CNAME record for each domain of the file, in its order, between two equal SOAs. */
  lemma {:induction false} ZoneServed(serial: u32, lines: seq<text>, zone: text)
    requires RpzFile.Readable(lines)
    ensures AxfrRecords(serial, lines, zone)
         == [Soa(zone, serial)] + Served(RpzFile.Domains(lines), zone) + [Soa(zone, serial)]
  {
    hide RpzFile.Domains, LineRecords, Served;
    LinesServed(lines, zone);
  }

  lemma {:induction false} LinesServed(lines: seq<text>, zone: text)
    requires RpzFile.Readable(lines)
    ensures LineRecords(lines, zone) == Served(RpzFile.Domains(lines), zone)
  {
    hide RpzFile.ReadLine, LineRecord;
    if lines != [] {
      var n := |lines| - 1;
      LinesServed(lines[..n], zone);
      LineServed(lines[n], zone);
      var front, all := RpzFile.Domains(lines[..n]), RpzFile.Domains(lines);
      if RpzFile.ReadLine(lines[n]).DomainLine? {
        assert all == front + [RpzFile.ReadLine(lines[n]).name];
        assert all[..|all| - 1] == front;
      } else {
        assert all == front;
      }
    }
  }

  /** A single SOA answers exactly the clients that have a serial, and one that the server's is not newer than. */
  lemma SoaOnlyExactly(state: State, lines: seq<text>, s: u32, zone: text, records: seq<RR>)
    requires Answers(state, lines, AskSince(s), zone, records)
    ensures records == [Soa(zone, state.serial)] <==> s != 0 && !SerialGreater(state.serial, s)
  {
    hide LineRecords, Records, SerialGreater;
  }

  /** Which SOA is the zone's: one whose owner is the zone but for the case of letters. */
  lemma ZoneSoaExactly(rr: RR, zone: text)
    requires ZoneOk(zone)
    ensures ZoneSoa(rr, zone) <==> rr.Soa? && SameName(rr.owner, zone)
  {
    hide ToLower, SameName, IsName;
    LowerSame(rr.owner, zone);
  }
}
