/** Owner names and policy domains as escape-free label text. */
module RpzNames {
  import opened Basics
  import opened Text

  function Fqdn(s: text): text {
    if HasSuffix(s, ".") then s else s + "."
  }

  /** A character that the presentation format of a name writes without an escape. */
  predicate LabelChar(c: ascii) {
    '!' <= c <= '~' && c != '.' && c != '\'' && c != '@' && c != ';' && c != '(' && c != ')' && c != '"' && c != '\\'
  }

  predicate NameLabel(l: text) {
    1 <= |l| <= 63 && forall i :: 0 <= i < |l| ==> LabelChar(l[i])
  }

  ghost predicate NameLabels(ls: seq<text>) {
    forall i :: 0 <= i < |ls| ==> NameLabel(ls[i])
  }

  /** An absolute name as read from the wire: the root, or non-empty labels each followed by a dot. */
  ghost predicate IsName(s: text) {
    s == "." || (2 <= |s| <= 254 && s[|s| - 1] == '.' && NameLabels(Split(s[..|s| - 1], '.')))
  }

  /** A policy domain: a name relative to the zone, lower case, without the closing dot. */
  ghost predicate DomainOk(d: text) {
    d != [] && IsName(d + ".") && ToLower(d) == d
  }

  /** Whether an absolute lower-case name lies in the zone. */
  predicate IsSubDomain(zone: text, owner: text) {
    zone == "." || owner == zone || HasSuffix(owner, "." + zone)
  }

  predicate LabelLengthOk(l: text) {
    1 <= |l| <= 63
  }

  predicate IsDomainName(s: text) {
    var f := Fqdn(s);
    f == "." || forall l :: l in Split(f[..|f| - 1], '.') ==> LabelLengthOk(l)
  }

  function NormalizePolicyDomain(value: text): Option<text> {
    var v := ToLower(TrimSuffix(TrimSpace(value), "."));
    if v == [] || |v| > 253 || !IsDomainName(v) then None else Some(v)
  }

  // ----------------------------------------------------------- splitting

  function LowerAll(ls: seq<text>): (r: seq<text>)
    ensures |r| == |ls|
    ensures forall i :: 0 <= i < |ls| ==> r[i] == ToLower(ls[i])
  {
    seq(|ls|, i requires 0 <= i < |ls| => ToLower(ls[i]))
  }

  /** Lower-casing a name lower-cases its labels. */
  lemma {:induction false} SplitLower(s: text)
    ensures Split(ToLower(s), '.') == LowerAll(Split(s, '.'))
  {
    if s != [] {
      SplitLower(s[1..]);
      assert ToLower(s)[1..] == ToLower(s[1..]);
      assert LowerChar(s[0]) == '.' <==> s[0] == '.';
      GlueLower(s[0], Split(s[1..], '.'));
    }
  }

  lemma GlueLower(c: ascii, parts: seq<text>)
    requires parts != []
    ensures Glue(LowerChar(c), LowerAll(parts)) == LowerAll(Glue(c, parts))
    ensures [[]] + LowerAll(parts) == LowerAll([[]] + parts)
  {
    assert ToLower([c] + parts[0]) == [LowerChar(c)] + ToLower(parts[0]);
  }

  ghost predicate InSome(c: ascii, parts: seq<text>) {
    exists p :: 0 <= p < |parts| && c in parts[p]
  }

  /** Every character is a separator or belongs to a piece. */
  lemma {:induction false} SplitChars(s: text, sep: ascii, c: ascii)
    requires c in s && c != sep
    ensures InSome(c, Split(s, sep))
  {
    hide InSome;
    var rest := Split(s[1..], sep);
    if s[0] == c {
      InGlue(c, c, rest);
    } else {
      SplitChars(s[1..], sep, c);
      InGlue(c, s[0], rest);
    }
  }

  lemma InGlue(c: ascii, head: ascii, parts: seq<text>)
    requires parts != [] && (c == head || InSome(c, parts))
    ensures InSome(c, Glue(head, parts))
    ensures InSome(c, parts) ==> InSome(c, [[]] + parts)
  {
    if InSome(c, parts) {
      var p :| 0 <= p < |parts| && c in parts[p];
      assert ([[]] + parts)[p + 1] == parts[p];
      assert c in Glue(head, parts)[p];
    } else {
      assert c in Glue(head, parts)[0];
    }
  }

  /** The ends of the text are ends of pieces. */
  lemma {:induction false} SplitEnds(s: text, sep: ascii)
    ensures s == [] || s[0] == sep ==> Split(s, sep)[0] == []
    ensures s == [] || s[|s| - 1] == sep ==> Split(s, sep)[|Split(s, sep)| - 1] == []
    ensures s != [] && s[|s| - 1] == sep ==> |Split(s, sep)| > 1
  {
    if s != [] {
      SplitEnds(s[1..], sep);
    }
  }

  lemma LabelsNoSpace(s: text)
    requires NameLabels(Split(s, '.'))
    ensures forall i :: 0 <= i < |s| ==> !IsSpace(s[i])
    ensures s != [] && s[|s| - 1] != '.' && s[0] != '.'
  {
    hide Split;
    hide NameLabels;
    SplitEnds(s, '.');
    var parts := Split(s, '.');
    EndsNotEmpty(parts);
    forall i | 0 <= i < |s| ensures !IsSpace(s[i]) {
      if s[i] != '.' {
        SplitChars(s, '.', s[i]);
        LabelNoSpace(parts, s[i]);
      }
    }
  }

  lemma EndsNotEmpty(parts: seq<text>)
    requires parts != [] && NameLabels(parts)
    ensures parts[0] != [] && parts[|parts| - 1] != []
  {
    assert NameLabel(parts[0]) && NameLabel(parts[|parts| - 1]);
  }

  lemma LabelNoSpace(parts: seq<text>, c: ascii)
    requires NameLabels(parts) && InSome(c, parts)
    ensures !IsSpace(c)
  {
    var p :| 0 <= p < |parts| && c in parts[p];
    assert NameLabel(parts[p]);
    var k :| 0 <= k < |parts[p]| && parts[p][k] == c;
  }

  // ------------------------------------------------------ domain facts

  /** What a domain looks like character by character and label by label. */
  lemma DomainFacts(d: text)
    requires DomainOk(d)
    ensures NameLabels(Split(d, '.')) && 1 <= |d| <= 253 && ToLower(d) == d
    ensures forall i :: 0 <= i < |d| ==> !IsSpace(d[i])
    ensures d[|d| - 1] != '.' && d[0] != '.'
  {
    assert (d + ".")[..|d|] == d;
    LabelsNoSpace(d);
  }

  lemma NoTrim(s: text)
    requires s == [] || (!IsSpace(s[0]) && !IsSpace(s[|s| - 1]))
    ensures TrimSpace(s) == s
  {
  }

  lemma {:induction false} TrimLeftKeeps(s: text)
    ensures var r := TrimLeft(s, IsSpace); |r| <= |s| && r == s[|s| - |r|..] && (r != [] ==> !IsSpace(r[0]))
  {
    if s != [] && IsSpace(s[0]) {
      TrimLeftKeeps(s[1..]);
    }
  }

  lemma {:induction false} TrimRightKeeps(s: text)
    ensures var r := TrimRight(s, IsSpace); |r| <= |s| && r == s[..|r|] && (r != [] ==> !IsSpace(r[|r| - 1]))
  {
    if s != [] && IsSpace(s[|s| - 1]) {
      TrimRightKeeps(s[..|s| - 1]);
    }
  }

  lemma TrimmedStays(raw: text)
    ensures var l := TrimSpace(raw); TrimSpace(l) == l && ('\n' !in raw ==> '\n' !in l)
  {
    var half := TrimLeft(raw, IsSpace);
    TrimLeftKeeps(raw);
    TrimRightKeeps(half);
    NoTrim(TrimSpace(raw));
  }

  /** A policy domain is its own normal form. */
  lemma NormalizeDomain(d: text)
    requires DomainOk(d)
    ensures NormalizePolicyDomain(d) == Some(d)
  {
    hide Split;
    hide TrimSpace;
    DomainFacts(d);
    NoTrim(d);
    var labels := Split(d, '.');
    assert Fqdn(d) == d + "." && (d + ".")[..|d|] == d;
    forall l | l in labels ensures LabelLengthOk(l) {
      var i :| 0 <= i < |labels| && labels[i] == l;
      assert NameLabel(labels[i]);
    }
  }

  lemma LowerLabels(ls: seq<text>)
    requires NameLabels(ls)
    ensures NameLabels(LowerAll(ls))
  {
    forall i | 0 <= i < |ls| ensures NameLabel(LowerAll(ls)[i]) {
      assert NameLabel(ls[i]);
    }
  }

  /** Lower-casing keeps names names. */
  lemma LowerName(s: text)
    requires IsName(s)
    ensures IsName(ToLower(s))
  {
    if s != "." {
      var front := s[..|s| - 1];
      assert ToLower(s)[..|s| - 1] == ToLower(front);
      SplitLower(front);
      LowerLabels(Split(front, '.'));
    } else {
      assert ToLower(s) == s;
    }
  }

  /** No name but the root starts with a dot. */
  lemma NameStart(s: text)
    requires IsName(s) && s != "."
    ensures s[0] != '.'
  {
    LabelsNoSpace(s[..|s| - 1]);
  }

  /** The part of a name before a zone it ends with is itself relative to nothing but a name. */
  lemma PrefixIsDomain(p: text, zone: text)
    requires p != [] && zone != "." && IsName(zone) && IsName(p + "." + zone)
    requires ToLower(p) == p
    ensures DomainOk(p)
  {
    var s := p + "." + zone;
    var z := zone[..|zone| - 1];
    assert s[..|s| - 1] == p + ['.'] + z;
    SplitAppend(p, z, '.');
    var all := Split(p, '.') + Split(z, '.');
    assert s != ".";
    forall i | 0 <= i < |Split(p, '.')| ensures NameLabel(Split(p, '.')[i]) {
      assert NameLabel(all[i]);
    }
    assert (p + ".")[..|p|] == p;
  }
}
