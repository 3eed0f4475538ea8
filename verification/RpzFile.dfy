/** The raw domain file: reading its lines, rewriting it by a delta, compiling it. */
module RpzFile {
  import opened Basics
  import opened Text
  import opened RpzNames
  import opened RpzRecords
  import opened Sorting

  datatype LineResult = SkipLine | BadLine | DomainLine(name: text)

  /** Blank lines and comments are skipped; everything else must be a domain. */
  function ReadLine(line: text): LineResult {
    var t := TrimSpace(line);
    if t == [] || t[0] == '#' then SkipLine
    else
      match NormalizePolicyDomain(t)
      case None => BadLine
      case Some(d) => DomainLine(d)
  }

  ghost predicate Readable(lines: seq<text>) {
    forall i :: 0 <= i < |lines| ==> ReadLine(lines[i]) != BadLine
  }

  /** The domains of a file, in line order. */
  function Domains(lines: seq<text>): seq<text> {
    if lines == [] then []
    else
      var last := ReadLine(lines[|lines| - 1]);
      Domains(lines[..|lines| - 1]) + if last.DomainLine? then [last.name] else []
  }

  function FileSet(lines: seq<text>): set<text> {
    Elems(Domains(lines))
  }

  // ------------------------------------------------------------ rewriting

  predicate AllNormal(values: seq<text>) {
    forall v :: v in values ==> NormalizePolicyDomain(v).Some?
  }

  function NormalSet(values: seq<text>): set<text> {
    set v | v in values && NormalizePolicyDomain(v).Some? :: NormalizePolicyDomain(v).value
  }

  function Kept(domains: seq<text>, deleted: set<text>): seq<text> {
    if domains == [] then []
    else
      var last := domains[|domains| - 1];
      Kept(domains[..|domains| - 1], deleted) + if last in deleted then [] else [last]
  }

  /** The file a delta leaves: kept lines in their order, then the missing additions, sorted. */
  ghost function Rewritten(raw: Option<seq<text>>, delta: Delta): Option<seq<text>> {
    if !AllNormal(delta.added) || !AllNormal(delta.deleted) then None
    else
      var add, del := NormalSet(delta.added), NormalSet(delta.deleted);
      if delta.full then Some(Sorted(add - del))
      else if raw.None? || !Readable(raw.value) then None
      else
        var kept := Kept(Domains(raw.value), del);
        Some(kept + Sorted(add - Elems(kept) - del))
  }

  method NormalizeAll(values: seq<text>) returns (r: Option<set<text>>)
    ensures r == if AllNormal(values) then Some(NormalSet(values)) else None
  {
    hide NormalizePolicyDomain;
    var out: set<text> := {};
    for i := 0 to |values|
      invariant forall v :: v in values[..i] ==> NormalizePolicyDomain(v).Some?
      invariant out == NormalSet(values[..i])
    {
      assert values[..i + 1] == values[..i] + [values[i]];
      var clean := NormalizePolicyDomain(values[i]);
      if clean.None? {
        assert values[i] in values;
        return None;
      }
      out := out + {clean.value};
    }
    assert values[..|values|] == values;
    r := Some(out);
  }

  method ApplyDeltaToFile(raw: Option<seq<text>>, delta: Delta) returns (r: Option<seq<text>>)
    ensures r == Rewritten(raw, delta)
  {
    hide AllNormal, NormalSet, ReadLine;
    var added := NormalizeAll(delta.added);
    if added.None? {
      return None;
    }
    var deleted := NormalizeAll(delta.deleted);
    if deleted.None? {
      return None;
    }
    var add, out := added.value, [];
    if !delta.full {
      if raw.None? {
        return None;
      }
      var ok;
      ok, out, add := StreamLines(raw.value, deleted.value, add);
      if !ok {
        return None;
      }
    }
    var rest := set d | d in add && d !in deleted.value;
    assert rest == add - deleted.value;
    var remaining := SortSet(rest);
    assert delta.full ==> out + remaining == remaining;
    r := Some(out + remaining);
  }

  /** The pass over the old file: writes what is kept and strikes it off the additions. */
  method StreamLines(lines: seq<text>, deleted: set<text>, added: set<text>)
      returns (ok: bool, out: seq<text>, add: set<text>)
    ensures ok <==> Readable(lines)
    ensures ok ==> out == Kept(Domains(lines), deleted) && add == added - Elems(out)
  {
    hide ReadLine, Domains, Kept, Elems;
    out, add := [], added;
    DomainsNone(lines);
    KeptNone(deleted);
    ElemsAppend([], []);
    for i := 0 to |lines|
      invariant forall j :: 0 <= j < i ==> ReadLine(lines[j]) != BadLine
      invariant out == Kept(Domains(lines[..i]), deleted)
      invariant add == added - Elems(out)
    {
      DomainsNext(lines, i);
      var line := ReadLine(lines[i]);
      if line == BadLine {
        ok := false;
        return;
      }
      if line.DomainLine? {
        var clean := line.name;
        KeptNext(Domains(lines[..i]), clean, deleted);
        if clean !in deleted {
          ElemsAppend(out, clean);
          out := out + [clean];
          add := add - {clean};
        }
      }
    }
    assert lines[..|lines|] == lines;
    ok := true;
  }

  lemma DomainsNone(lines: seq<text>)
    ensures Domains(lines[..0]) == []
  {
  }

  lemma DomainsNext(lines: seq<text>, i: nat)
    requires i < |lines|
    ensures Domains(lines[..i + 1]) ==
              if ReadLine(lines[i]).DomainLine? then Domains(lines[..i]) + [ReadLine(lines[i]).name]
              else Domains(lines[..i])
  {
    hide ReadLine;
    assert lines[..i + 1][..i] == lines[..i];
  }

  lemma KeptNext(domains: seq<text>, d: text, deleted: set<text>)
    ensures Kept(domains + [d], deleted) ==
              if d in deleted then Kept(domains, deleted) else Kept(domains, deleted) + [d]
  {
    assert (domains + [d])[..|domains|] == domains;
  }

  /** Keeping lines keeps their multiplicity, except that deleted ones vanish. */
  lemma {:induction false} KeptCounts(domains: seq<text>, deleted: set<text>, d: text)
    ensures multiset(Kept(domains, deleted))[d] == if d in deleted then 0 else multiset(domains)[d]
  {
    hide Kept;
    KeptNone(deleted);
    if domains != [] {
      var n := |domains| - 1;
      assert domains == domains[..n] + [domains[n]];
      KeptCounts(domains[..n], deleted, d);
      KeptNext(domains[..n], domains[n], deleted);
    }
  }

  lemma {:induction false} SortedCounts(q: seq<text>, d: text)
    requires StrictlySorted(q)
    ensures multiset(q)[d] == if d in q then 1 else 0
  {
    if q != [] {
      var n := |q| - 1;
      SortedCounts(q[..n], d);
      assert q == q[..n] + [q[n]];
      if q[n] in q[..n] {
        var i :| 0 <= i < n && q[i] == q[n];
        assert Less(q[i], q[n]);
        LessIrreflexive(q[n]);
      }
    }
  }

  /**
   * The one-pass rewrite, line by line: a deleted domain has no line left, a domain of the old file keeps
   * as many lines as it had, an added one that was missing gets exactly one, and nothing else appears.
   */
  lemma RewriteLines(raw: seq<text>, delta: Delta, d: text)
    requires !delta.full && Rewritten(Some(raw), delta).Some?
    ensures var add, del := NormalSet(delta.added), NormalSet(delta.deleted);
            multiset(Rewritten(Some(raw), delta).value)[d] ==
              if d in del then 0
              else if d in FileSet(raw) then multiset(Domains(raw))[d]
              else if d in add then 1 else 0
  {
    hide AllNormal, NormalSet, Domains, Readable;
    var add, del := NormalSet(delta.added), NormalSet(delta.deleted);
    var kept := Kept(Domains(raw), del);
    var rest := Sorted(add - Elems(kept) - del);
    KeptCounts(Domains(raw), del, d);
    SortedCounts(rest, d);
    assert d in rest <==> d in Elems(rest);
    assert d in kept <==> d in multiset(kept);
    assert d in Domains(raw) <==> d in multiset(Domains(raw));
  }

  /** As sets, the rewrite deletes and then adds what is not deleted. */
  lemma RewriteMeaning(raw: seq<text>, delta: Delta)
    requires !delta.full && Rewritten(Some(raw), delta).Some?
    ensures Elems(Rewritten(Some(raw), delta).value) ==
              FileSet(raw) - NormalSet(delta.deleted) + (NormalSet(delta.added) - NormalSet(delta.deleted))
  {
    hide AllNormal, NormalSet, Domains, Readable, Rewritten;
    var out := Rewritten(Some(raw), delta).value;
    var add, del := NormalSet(delta.added), NormalSet(delta.deleted);
    forall d ensures d in out <==> d in FileSet(raw) - del + (add - del) {
      RewriteLines(raw, delta, d);
      assert d in out <==> d in multiset(out);
      assert d in Domains(raw) <==> d in multiset(Domains(raw));
    }
  }

  // ------------------------------------------------------- files it wrote

  ghost predicate AllDomains(values: seq<text>) {
    forall i :: 0 <= i < |values| ==> DomainOk(values[i])
  }

  /** A domain that a line can hold: a leading '#' would make the line a comment. */
  ghost predicate PlainDomain(d: text) {
    DomainOk(d) && d[0] != '#'
  }

  ghost predicate PlainLines(lines: seq<text>) {
    forall i :: 0 <= i < |lines| ==> PlainDomain(lines[i])
  }

  lemma DomainsNormal(values: seq<text>)
    requires AllDomains(values)
    ensures AllNormal(values) && NormalSet(values) == Elems(values)
  {
    hide DomainOk, NormalizePolicyDomain;
    forall v | v in values ensures NormalizePolicyDomain(v) == Some(v) {
      var i :| 0 <= i < |values| && values[i] == v;
      NormalizeDomain(v);
    }
  }

  lemma PlainLineReads(d: text)
    requires PlainDomain(d)
    ensures ReadLine(d) == DomainLine(d)
  {
    hide NormalizePolicyDomain, IsName, TrimSpace;
    DomainFacts(d);
    NoTrim(d);
    NormalizeDomain(d);
  }

  /** A file of plain domains reads back as itself. */
  lemma {:induction false} PlainFile(lines: seq<text>)
    requires PlainLines(lines)
    ensures Readable(lines) && Domains(lines) == lines
  {
    hide PlainDomain, ReadLine;
    if lines != [] {
      var n := |lines| - 1;
      PlainFile(lines[..n]);
      PlainLineReads(lines[n]);
      assert lines == lines[..n] + [lines[n]];
      forall i | 0 <= i <= n ensures ReadLine(lines[i]) != BadLine {
        assert i < n ==> ReadLine(lines[..n][i]) != BadLine;
      }
    }
  }

  /** A domain's own line reads back as that domain if and only if the domain has no '#' in front. */
  lemma LineReadsExactly(d: text)
    requires DomainOk(d)
    ensures ReadLine(d) == DomainLine(d) <==> d[0] != '#'
    ensures d[0] == '#' ==> ReadLine(d) == SkipLine
  {
    hide NormalizePolicyDomain, IsName, TrimSpace;
    DomainFacts(d);
    NoTrim(d);
    NormalizeDomain(d);
  }

  /** The domains without '#' in front. */
  function WithoutHash(lines: seq<text>): seq<text> {
    if lines == [] then []
    else
      var d := lines[|lines| - 1];
      if d != [] && d[0] == '#' then WithoutHash(lines[..|lines| - 1]) else WithoutHash(lines[..|lines| - 1]) + [d]
  }

  lemma {:induction false} WithoutHashElems(lines: seq<text>)
    ensures Elems(WithoutHash(lines)) == set d | d in lines && (d == [] || d[0] != '#')
  {
    if lines != [] {
      var n := |lines| - 1;
      WithoutHashElems(lines[..n]);
      assert lines == lines[..n] + [lines[n]];
      ElemsAppend(WithoutHash(lines[..n]), lines[n]);
      ElemsAppend(lines[..n], lines[n]);
    }
  }

  /** A file of domains reads back as those without '#' in front. */
  lemma {:induction false} DomainFile(lines: seq<text>)
    requires AllDomains(lines)
    ensures Readable(lines) && Domains(lines) == WithoutHash(lines)
  {
    hide DomainOk, ReadLine;
    if lines != [] {
      var n := |lines| - 1;
      DomainFile(lines[..n]);
      LineReadsExactly(lines[n]);
      DomainNotEmpty(lines[n]);
      forall i | 0 <= i <= n ensures ReadLine(lines[i]) != BadLine {
        assert i < n ==> ReadLine(lines[..n][i]) != BadLine;
      }
    }
  }

  lemma DomainNotEmpty(d: text)
    requires DomainOk(d)
    ensures d != []
  {
  }

  /** What a file can show of a set of domains. */
  function Visible(s: set<text>): set<text> {
    set d | d in s && (d == [] || d[0] != '#')
  }

  lemma FileVisible(lines: seq<text>)
    requires AllDomains(lines)
    ensures Readable(lines) && FileSet(lines) == Visible(Elems(lines))
  {
    hide DomainOk, Domains, WithoutHash, Readable;
    DomainFile(lines);
    WithoutHashElems(lines);
  }

  lemma {:induction false} WithoutHashDomains(lines: seq<text>)
    requires AllDomains(lines)
    ensures AllDomains(WithoutHash(lines)) && PlainLines(WithoutHash(lines))
  {
    hide DomainOk;
    if lines != [] {
      WithoutHashDomains(lines[..|lines| - 1]);
      DomainNotEmpty(lines[|lines| - 1]);
    }
  }

  /** A file of domains reads back as exactly their set if and only if none has '#' in front. */
  lemma FileReadsExactly(lines: seq<text>)
    requires AllDomains(lines)
    ensures FileSet(lines) == Elems(lines) <==> PlainLines(lines)
  {
    hide DomainOk, Domains, WithoutHash;
    DomainFile(lines);
    WithoutHashElems(lines);
    forall i | 0 <= i < |lines| ensures lines[i] in Elems(lines) && lines[i] != [] {
      DomainNotEmpty(lines[i]);
    }
  }

  /** What a line names does not start with '#'. */
  lemma LineNamesNoHash(line: text)
    requires ReadLine(line).DomainLine?
    ensures ReadLine(line).name != [] && ReadLine(line).name[0] != '#'
  {
    hide IsDomainName, TrimSpace;
    TrimmedStays(line);
  }

  lemma {:induction false} NoHashInFile(lines: seq<text>, d: text)
    requires d in Domains(lines)
    ensures d != [] && d[0] != '#'
  {
    hide ReadLine;
    var n := |lines| - 1;
    if d !in Domains(lines[..n]) {
      LineNamesNoHash(lines[n]);
    } else {
      NoHashInFile(lines[..n], d);
    }
  }

  /** No file shows more. */
  lemma FileIsVisible(lines: seq<text>)
    ensures Visible(FileSet(lines)) == FileSet(lines)
  {
    hide Domains;
    forall d | d in FileSet(lines) ensures d in Visible(FileSet(lines)) {
      NoHashInFile(lines, d);
    }
  }

  /** Domains with '#' in front are policy domains of a transfer, yet no file at all has them in its set. */
  lemma HashLineLost(d: text, zone: text)
    requires DomainOk(d) && d[0] == '#' && ZoneOk(zone) && zone != "."
    ensures PolicyOwner(RecordOf(d, zone), zone) == Domain(d)
    ensures forall lines :: d !in FileSet(lines)
  {
    hide IsName, NormalizePolicyDomain, PolicyOwner, Domains;
    RecordOfRoundTrip(d, zone);
    forall lines: seq<text> ensures d !in FileSet(lines) {
      if d in Domains(lines) {
        NoHashInFile(lines, d);
      }
    }
  }

  /** There are such domains. */
  lemma HashIsDomain()
    ensures DomainOk("#a")
  {
    hide TrimSpace;
    var d: text := "#a";
    SplitPiece(d, '.');
    assert (d + ".")[..2] == d;
    assert ToLower(d) == d;
  }

  lemma {:induction false} KeptAll(domains: seq<text>, deleted: set<text>)
    requires Elems(domains) !! deleted
    ensures Kept(domains, deleted) == domains
  {
    if domains != [] {
      var n := |domains| - 1;
      assert domains == domains[..n] + [domains[n]];
      assert domains[n] in Elems(domains);
      KeptAll(domains[..n], deleted);
    }
  }

  lemma KeptNone(deleted: set<text>)
    ensures Kept([], deleted) == []
  {
  }

  lemma {:induction false} KeptElems(domains: seq<text>, deleted: set<text>)
    ensures Elems(Kept(domains, deleted)) == Elems(domains) - deleted
  {
    hide Kept;
    KeptNone(deleted);
    if domains != [] {
      var n := |domains| - 1;
      assert domains == domains[..n] + [domains[n]];
      KeptElems(domains[..n], deleted);
      KeptNext(domains[..n], domains[n], deleted);
      ElemsAppend(Kept(domains[..n], deleted), domains[n]);
      ElemsAppend(domains[..n], domains[n]);
    } else {
      ElemsAppend([], []);
    }
  }

  /** Rewriting a file a second time by the same delta leaves the very same lines. */
  lemma RewriteTwice(raw: seq<text>, delta: Delta)
    requires !delta.full && Rewritten(Some(raw), delta).Some? && PlainLines(Rewritten(Some(raw), delta).value)
    ensures Rewritten(Rewritten(Some(raw), delta), delta) == Rewritten(Some(raw), delta)
  {
    hide AllNormal, NormalSet, Domains, Readable, PlainLines;
    var add, del := NormalSet(delta.added), NormalSet(delta.deleted);
    var kept := Kept(Domains(raw), del);
    var rest := Sorted(add - Elems(kept) - del);
    var out := kept + rest;
    KeptElems(Domains(raw), del);
    assert Elems(out) == Elems(kept) + Elems(rest);
    PlainFile(out);
    KeptAll(out, del);
    assert add - Elems(out) - del == {};
    SortedNone();
    assert out + [] == out;
  }

  lemma SortedNone()
    ensures Sorted({}) == []
  {
    ElemsAppend([], []);
    SortedIs([]);
  }

  // ------------------------------------------------------------ compiling

  /** Keys and entry count of the compiled database; None on a line that is no domain. */
  method CompileDomains(lines: seq<text>) returns (r: Option<seq<text>>, count: nat)
    ensures r == if Readable(lines) then Some(Domains(lines)) else None
    ensures r.Some? ==> count == |Domains(lines)|
  {
    hide ReadLine;
    var keys: seq<text> := [];
    count := 0;
    for i := 0 to |lines|
      invariant forall j :: 0 <= j < i ==> ReadLine(lines[j]) != BadLine
      invariant keys == Domains(lines[..i]) && count == |keys|
    {
      assert lines[..i + 1][..i] == lines[..i];
      match ReadLine(lines[i])
      case SkipLine =>
      case BadLine =>
        return None, count;
      case DomainLine(d) =>
        keys := keys + [d];
        count := count + 1;
    }
    assert lines[..|lines|] == lines;
    r := Some(keys);
  }
}
