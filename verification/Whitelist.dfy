/** The canonical form of an uploaded allow list. */
module Whitelist {
  import opened Basics
  import opened Text
  import opened NameText
  import opened RpzNames

  /** Parsing an IP address and printing it again; None when the text is not an address. */
  type IpForm = text -> Option<text>

  predicate LowerAlnum(c: ascii) {
    'a' <= c <= 'z' || '0' <= c <= '9'
  }

  predicate ValidLabel(l: text) {
    && 1 <= |l| <= 63 && LowerAlnum(l[0]) && LowerAlnum(l[|l| - 1])
    && forall i :: 0 <= i < |l| ==> LowerAlnum(l[i]) || l[i] == '-'
  }

  predicate Forbidden(c: ascii) {
    c == '/' || c == ' ' || c == '*' || c == '\t' || c == '\r' || c == '\n'
  }

  predicate ValidDomain(v: text) {
    && v != [] && |v| <= 253
    && (forall i :: 0 <= i < |v| ==> !Forbidden(v[i]))
    && forall i :: 0 <= i < |Split(v, '.')| ==> ValidLabel(Split(v, '.')[i])
  }

  /** What one line is: nothing, a comment, an entry in canonical form, or an error. */
  datatype Line = Blank | Comment(text: text) | Entry(text: text) | Bad

  function Classify(ip: IpForm, raw: text): Line {
    var line := TrimSpace(raw);
    if line == [] then Blank
    else if line[0] == '#' then Comment(line)
    else
      var e := TrimSuffix(ToLower(line), ".");
      if ip(e).Some? then Entry(ip(e).value) else if ValidDomain(e) then Entry(e) else Bad
  }

  /** The lines kept so far, the numbers of bad lines, and the numbers of entries and of repetitions. */
  datatype Result = Result(out: seq<text>, entries: seq<text>, invalid: seq<nat>, duplicates: nat)

  function Take(r: Result, number: nat, l: Line): Result {
    match l
    case Blank => r
    case Comment(c) => r.(out := r.out + [c])
    case Bad => r.(invalid := r.invalid + [number])
    case Entry(e) =>
      if e in r.entries then r.(duplicates := r.duplicates + 1)
      else r.(out := r.out + [e], entries := r.entries + [e])
  }

  function Normalized(ip: IpForm, lines: seq<text>): Result {
    if lines == [] then Result([], [], [], 0)
    else Take(Normalized(ip, lines[..|lines| - 1]), |lines|, Classify(ip, lines[|lines| - 1]))
  }

  function TextOf(out: seq<text>): text {
    if out == [] then [] else Join(out, '\n') + "\n"
  }

  lemma NormalizedNone(ip: IpForm)
    ensures Normalized(ip, []) == Result([], [], [], 0)
  {
  }

  lemma NormalizedOneMore(ip: IpForm, lines: seq<text>, i: nat)
    requires i < |lines|
    ensures Normalized(ip, lines[..i + 1]) == Take(Normalized(ip, lines[..i]), i + 1, Classify(ip, lines[i]))
  {
    assert lines[..i + 1][..i] == lines[..i];
  }

  method ValidWhitelistDomain(v: text) returns (ok: bool)
    ensures ok <==> ValidDomain(v)
  {
    hide ValidLabel, Split;
    if v == [] || |v| > 253 || exists i :: 0 <= i < |v| && Forbidden(v[i]) {
      return false;
    }
    var labels := Split(v, '.');
    for i := 0 to |labels|
      invariant forall j :: 0 <= j < i ==> ValidLabel(labels[j])
    {
      if !ValidLabel(labels[i]) {
        return false;
      }
    }
    ok := true;
  }

  method NormalizeWhitelist(ip: IpForm, raw: text) returns (t: text, invalid: seq<nat>, count: nat, duplicates: nat)
    ensures var r := Normalized(ip, Split(raw, '\n'));
            t == TextOf(r.out) && invalid == r.invalid && count == |r.entries| && duplicates == r.duplicates
  {
    hide Split, ValidDomain, Join, Normalized, TrimSpace, TrimSuffix, ToLower;
    var lines := Split(raw, '\n');
    var seen: set<text> := {};
    var out: seq<text> := [];
    invalid, count, duplicates := [], 0, 0;
    NormalizedNone(ip);
    assert lines[..0] == [];
    for i := 0 to |lines|
      invariant var r := Normalized(ip, lines[..i]);
                out == r.out && invalid == r.invalid && count == |r.entries| && duplicates == r.duplicates
      invariant forall e :: e in seen <==> e in Normalized(ip, lines[..i]).entries
    {
      NormalizedOneMore(ip, lines, i);
      var line := TrimSpace(lines[i]);
      if line == [] {
        continue;
      }
      if line[0] == '#' {
        out := out + [line];
        continue;
      }
      line := TrimSuffix(ToLower(line), ".");
      if ip(line).Some? {
        line := ip(line).value;
      } else {
        var valid := ValidWhitelistDomain(line);
        if !valid {
          invalid := invalid + [i + 1];
          continue;
        }
      }
      if line in seen {
        duplicates := duplicates + 1;
        continue;
      }
      seen := seen + {line};
      out := out + [line];
      count := count + 1;
    }
    assert lines[..|lines|] == lines;
    if out == [] {
      return [], invalid, count, duplicates;
    }
    return Join(out, '\n') + "\n", invalid, count, duplicates;
  }

  // ---------------------------------------------------------------- canonical lines

  /** A printed address is one lower-case word, and parses to itself. */
  ghost predicate IpForms(ip: IpForm) {
    forall x :: ip(x).Some? ==> ip(ip(x).value) == Some(ip(x).value) && Word(ip(x).value)
  }

  /** Non-empty, without white space, lower case, not a comment, no dot at its end. */
  ghost predicate Word(e: text) {
    && e != [] && (forall i :: 0 <= i < |e| ==> !IsSpace(e[i]))
    && ToLower(e) == e && e[0] != '#' && e[|e| - 1] != '.'
  }

  lemma LabelChars(l: text, c: ascii)
    requires ValidLabel(l) && c in l
    ensures LowerAlnum(c) || c == '-'
  {
  }

  lemma DomainChars(v: text, c: ascii)
    requires ValidDomain(v) && c in v
    ensures LowerAlnum(c) || c == '-' || c == '.'
  {
    hide Split, ValidLabel, LowerAlnum, Forbidden;
    if c != '.' {
      SplitChars(v, '.', c);
      var parts := Split(v, '.');
      var p :| 0 <= p < |parts| && c in parts[p];
      LabelChars(parts[p], c);
    }
  }

  /** A valid domain is a word: a dot at its end would leave an empty label. */
  lemma DomainIsWord(v: text)
    requires ValidDomain(v)
    ensures Word(v)
  {
    forall i | 0 <= i < |v| ensures !IsSpace(v[i]) && LowerChar(v[i]) == v[i] && v[i] != '#' {
      DomainChars(v, v[i]);
    }
    assert ToLower(v) == v;
    hide Split;
    SplitEnds(v, '.');
    var parts := Split(v, '.');
    assert ValidLabel(parts[|parts| - 1]);
  }

  lemma WordStays(e: text)
    requires Word(e)
    ensures TrimSpace(e) == e && TrimSuffix(ToLower(e), ".") == e && '\n' !in e
  {
    NoTrim(e);
  }

  /** A canonical entry is an entry again, and the same one. */
  lemma EntryStays(ip: IpForm, raw: text)
    requires IpForms(ip) && Classify(ip, raw).Entry?
    ensures var e := Classify(ip, raw).text; Classify(ip, e) == Entry(e) && '\n' !in e
  {
    hide ValidDomain, TrimSpace, TrimSuffix, ToLower;
    var e := Classify(ip, raw).text;
    var line := TrimSuffix(ToLower(TrimSpace(raw)), ".");
    if ip(line).None? {
      DomainIsWord(e);
    }
    WordStays(e);
  }

  lemma CommentStays(ip: IpForm, raw: text)
    requires Classify(ip, raw).Comment? && '\n' !in raw
    ensures var c := Classify(ip, raw).text; Classify(ip, c) == Comment(c) && '\n' !in c
  {
    hide TrimSpace, ValidDomain;
    TrimmedStays(raw);
  }

  // ---------------------------------------------------------------- the whole list

  /** A kept line: a comment or an entry, in the form the list has it. */
  ghost predicate Kept(ip: IpForm, l: text) {
    '\n' !in l && (Classify(ip, l) == Comment(l) || Classify(ip, l) == Entry(l))
  }

  predicate Distinct(xs: seq<text>) {
    forall i, j :: 0 <= i < j < |xs| ==> xs[i] != xs[j]
  }

  /** The entries among kept lines. */
  function EntriesIn(ip: IpForm, out: seq<text>): seq<text> {
    if out == [] then []
    else
      var rest := EntriesIn(ip, out[..|out| - 1]);
      if Classify(ip, out[|out| - 1]).Entry? then rest + [out[|out| - 1]] else rest
  }

  /** Kept lines in canonical form, each entry once; the entries are those of the lines, in their order. */
  ghost predicate Canonical(ip: IpForm, r: Result) {
    && (forall i :: 0 <= i < |r.out| ==> Kept(ip, r.out[i]))
    && Distinct(r.entries) && r.entries == EntriesIn(ip, r.out)
  }

  lemma {:induction false} NormalizedCanonical(ip: IpForm, lines: seq<text>)
    requires IpForms(ip) && Without(lines, '\n')
    ensures Canonical(ip, Normalized(ip, lines))
  {
    hide Classify, IpForms;
    if lines != [] {
      var front, raw := lines[..|lines| - 1], lines[|lines| - 1];
      NormalizedCanonical(ip, front);
      var r := Normalized(ip, front);
      var l := Classify(ip, raw);
      if l.Comment? {
        CommentStays(ip, raw);
        assert (r.out + [l.text])[..|r.out|] == r.out;
      } else if l.Entry? {
        EntryStays(ip, raw);
        assert (r.out + [l.text])[..|r.out|] == r.out;
      }
    }
  }

  /** Kept lines with distinct entries normalize to themselves. */
  lemma {:induction false} CanonicalNormal(ip: IpForm, out: seq<text>)
    requires forall i :: 0 <= i < |out| ==> Kept(ip, out[i])
    requires Distinct(EntriesIn(ip, out))
    ensures Normalized(ip, out) == Result(out, EntriesIn(ip, out), [], 0)
  {
    hide Classify;
    if out != [] {
      var front, l := out[..|out| - 1], out[|out| - 1];
      assert out == front + [l];
      assert Kept(ip, l);
      DistinctFront(ip, out);
      CanonicalNormal(ip, front);
      if Classify(ip, l).Entry? {
        assert EntriesIn(ip, out) == EntriesIn(ip, front) + [l];
        LastIsNew(EntriesIn(ip, front), l);
      }
    }
  }

  lemma DistinctFront(ip: IpForm, out: seq<text>)
    requires out != [] && Distinct(EntriesIn(ip, out))
    ensures Distinct(EntriesIn(ip, out[..|out| - 1]))
  {
    hide Classify;
    var rest := EntriesIn(ip, out[..|out| - 1]);
    assert forall i :: 0 <= i < |rest| ==> EntriesIn(ip, out)[i] == rest[i];
  }

  lemma LastIsNew(xs: seq<text>, x: text)
    requires Distinct(xs + [x])
    ensures x !in xs
  {
    var all := xs + [x];
    forall i | 0 <= i < |xs| ensures xs[i] != x {
      assert all[i] == xs[i] && all[|xs|] == x;
    }
  }

  /** The text of kept lines splits into those lines and an empty one. */
  lemma TextLines(out: seq<text>)
    requires Without(out, '\n')
    ensures Split(TextOf(out), '\n') == out + [[]]
  {
    if out != [] {
      SplitJoin(out, '\n');
      SplitAppend(Join(out, '\n'), [], '\n');
      assert Join(out, '\n') + ['\n'] + [] == TextOf(out);
    }
  }

  /**
   * Normalizing is a fixpoint: the text it gives normalizes to itself, with the same count, no
   * invalid line and no duplicate.
   */
  lemma Fixpoint(ip: IpForm, raw: text)
    requires IpForms(ip)
    ensures var r := Normalized(ip, Split(raw, '\n'));
            Normalized(ip, Split(TextOf(r.out), '\n')) == Result(r.out, r.entries, [], 0)
  {
    hide Split, Classify, Kept, Join;
    JoinSplit(raw, '\n');
    var r := Normalized(ip, Split(raw, '\n'));
    NormalizedCanonical(ip, Split(raw, '\n'));
    KeptWithout(ip, r.out);
    TextLines(r.out);
    CanonicalNormal(ip, r.out);
    BlankLine(ip, r.out);
  }

  lemma KeptWithout(ip: IpForm, out: seq<text>)
    requires forall i :: 0 <= i < |out| ==> Kept(ip, out[i])
    ensures Without(out, '\n')
  {
  }

  lemma BlankLine(ip: IpForm, out: seq<text>)
    ensures Normalized(ip, out + [[]]) == Normalized(ip, out)
  {
    assert (out + [[]])[..|out|] == out;
  }

  // ---------------------------------------------------------------- what is kept and what is counted

  /** An entry is kept at its first occurrence, and every line is blank, a comment, bad, kept or a duplicate. */
  ghost predicate Accounts(ip: IpForm, lines: seq<text>, r: Result) {
    && (forall e :: e in r.entries <==> exists i :: 0 <= i < |lines| && Classify(ip, lines[i]) == Entry(e))
    && (forall n :: n in r.invalid <==> 1 <= n <= |lines| && Classify(ip, lines[n - 1]) == Bad)
    && |r.entries| + r.duplicates == EntryLines(ip, lines)
  }

  /** Number of lines that hold a valid entry. */
  function EntryLines(ip: IpForm, lines: seq<text>): nat {
    if lines == [] then 0
    else EntryLines(ip, lines[..|lines| - 1]) + (if Classify(ip, lines[|lines| - 1]).Entry? then 1 else 0)
  }

  lemma {:induction false} NormalizedAccounts(ip: IpForm, lines: seq<text>)
    ensures Accounts(ip, lines, Normalized(ip, lines))
  {
    hide Classify;
    if lines != [] {
      var front, raw := lines[..|lines| - 1], lines[|lines| - 1];
      NormalizedAccounts(ip, front);
      AccountsStep(ip, front, raw, Normalized(ip, front));
      assert lines == front + [raw];
    }
  }

  lemma AccountsStep(ip: IpForm, front: seq<text>, raw: text, r: Result)
    requires Accounts(ip, front, r)
    ensures Accounts(ip, front + [raw], Take(r, |front| + 1, Classify(ip, raw)))
  {
    hide Classify;
    var lines, t := front + [raw], Take(r, |front| + 1, Classify(ip, raw));
    assert lines[..|front|] == front && lines[|front|] == raw;
    forall e: text ensures e in t.entries <==> exists i :: 0 <= i < |lines| && Classify(ip, lines[i]) == Entry(e) {
      if e in r.entries {
        var i :| 0 <= i < |front| && Classify(ip, front[i]) == Entry(e);
        assert lines[i] == front[i];
      }
    }
    forall n: nat ensures n in t.invalid <==> 1 <= n <= |lines| && Classify(ip, lines[n - 1]) == Bad {
      if 1 <= n <= |front| {
        assert lines[n - 1] == front[n - 1];
      }
    }
  }

  /** Line p holds entry a, and no line up to it holds entry b. */
  ghost predicate SeenFirst(ip: IpForm, lines: seq<text>, p: nat, a: text, b: text) {
    p < |lines| && Classify(ip, lines[p]) == Entry(a) && forall q :: 0 <= q <= p ==> Classify(ip, lines[q]) != Entry(b)
  }

  ghost predicate Precedes(ip: IpForm, lines: seq<text>, a: text, b: text) {
    exists p: nat :: SeenFirst(ip, lines, p, a, b)
  }

  /** The entries stand in the order of their first occurrences. */
  lemma {:induction false} FirstOccurrenceOrder(ip: IpForm, lines: seq<text>, i: nat, j: nat)
    requires i < j < |Normalized(ip, lines).entries|
    ensures Precedes(ip, lines, Normalized(ip, lines).entries[i], Normalized(ip, lines).entries[j])
  {
    hide Classify;
    var front, raw := lines[..|lines| - 1], lines[|lines| - 1];
    var r := Normalized(ip, front);
    var a, b := Normalized(ip, lines).entries[i], Normalized(ip, lines).entries[j];
    assert lines == front + [raw];
    NormalizedAccounts(ip, front);
    if j < |r.entries| {
      FirstOccurrenceOrder(ip, front, i, j);
      var p: nat :| SeenFirst(ip, front, p, a, b);
      assert SeenFirst(ip, lines, p, a, b);
    } else {
      assert a in r.entries && b !in r.entries;
      var p: nat :| p < |front| && Classify(ip, front[p]) == Entry(a);
      assert forall q :: 0 <= q <= p ==> lines[q] == front[q];
      assert SeenFirst(ip, lines, p, a, b);
    }
  }

  /** A digit or a letter from a to z. */
  predicate AlnumCode(c: ascii) {
    48 <= c as int <= 57 || 97 <= c as int <= 122
  }

  /** One to 63 digits, small letters and hyphens, with no hyphen at either end. */
  ghost predicate PlainLabel(l: text) {
    && 1 <= |l| <= 63 && l[0] as int != 45 && l[|l| - 1] as int != 45
    && forall i :: 0 <= i < |l| ==> AlnumCode(l[i]) || l[i] as int == 45
  }

  ghost predicate PlainLabelList(labels: seq<text>) {
    |labels| >= 1 && forall i :: 0 <= i < |labels| ==> PlainLabel(labels[i])
  }

  lemma LabelExactly(l: text)
    ensures ValidLabel(l) <==> PlainLabel(l)
    ensures PlainLabel(l) ==> '.' !in l
  {
  }

  /** Which texts are domains of the list: at most 253 characters, plain labels with single dots in between. */
  lemma DomainExactly(v: text)
    ensures ValidDomain(v) <==>
              |v| <= 253 && exists labels: seq<text> :: PlainLabelList(labels) && Join(labels, '.') == v
  {
    hide Split, Join, ValidLabel, PlainLabel, Forbidden;
    JoinSplit(v, '.');
    var parts := Split(v, '.');
    forall i | 0 <= i < |parts| ensures ValidLabel(parts[i]) <==> PlainLabel(parts[i]) {
      LabelExactly(parts[i]);
    }
    if |v| <= 253 && exists labels: seq<text> :: PlainLabelList(labels) && Join(labels, '.') == v {
      var labels: seq<text> :| PlainLabelList(labels) && Join(labels, '.') == v;
      forall i | 0 <= i < |labels| ensures '.' !in labels[i] {
        LabelExactly(labels[i]);
      }
      SplitJoin(labels, '.');
      LabelsAllowed(v);
    }
    if ValidDomain(v) {
      assert PlainLabelList(parts);
    }
  }

  /** Plain labels make a text that is not empty and holds no forbidden character. */
  lemma LabelsAllowed(v: text)
    requires forall i :: 0 <= i < |Split(v, '.')| ==> PlainLabel(Split(v, '.')[i])
    ensures v != [] && forall i :: 0 <= i < |v| ==> !Forbidden(v[i])
  {
    hide Split, PlainLabel, Forbidden;
    SplitEnds(v, '.');
    var parts := Split(v, '.');
    NotEmptyLabel(parts[0]);
    forall i | 0 <= i < |v| ensures !Forbidden(v[i]) {
      if v[i] != '.' {
        SplitChars(v, '.', v[i]);
        var p :| 0 <= p < |parts| && v[i] in parts[p];
        LabelAllows(parts[p], v[i]);
      } else {
        DotAllowed();
      }
    }
  }

  lemma NotEmptyLabel(l: text)
    requires PlainLabel(l)
    ensures l != []
  {
  }

  lemma LabelAllows(l: text, c: ascii)
    requires PlainLabel(l) && c in l
    ensures !Forbidden(c)
  {
  }

  lemma DotAllowed()
    ensures !Forbidden('.')
  {
  }

  /** No domain of the list has a capital letter. */
  lemma DomainIsLow(v: text)
    requires ValidDomain(v)
    ensures NoCapital(v)
  {
    hide ValidDomain;
    forall i | 0 <= i < |v| ensures !Capital(v[i]) {
      DomainChars(v, v[i]);
    }
  }

  /** Two lines that are no comments and differ in the case of letters only are one entry, or both bad. */
  lemma LineCaseIgnored(ip: IpForm, a: text, b: text)
    requires SameName(a, b) && !Classify(ip, a).Comment? && !Classify(ip, b).Comment?
    ensures Classify(ip, a) == Classify(ip, b)
  {
    hide ToLower, TrimLeft, TrimRight, SameName, ValidDomain, TrimSuffix;
    LowerSame(a, b);
    LowerTrimSpace(a);
    LowerTrimSpace(b);
    LowerLength(TrimSpace(a));
    LowerLength(TrimSpace(b));
  }

  lemma LowerLength(s: text)
    ensures ToLower(s) == [] <==> s == []
  {
  }
}
