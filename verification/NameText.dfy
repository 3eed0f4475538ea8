/** What trimming and lower-casing do to names, in character codes, and which names share a key. */
module NameText {
  import opened Basics
  import opened Bytes
  import opened Text
  import opened WireName
  import opened CdbFormat
  import opened CdbReader
  import opened CdbRoundTrip

  // ---------------------------------------------------------------- trimming

  /** The text between a and b, where everything outside has this property and neither end has. */
  ghost predicate Between(s: text, drop: ascii -> bool, a: nat, b: nat, r: text) {
    && a <= b <= |s| && r == s[a..b]
    && (forall i :: 0 <= i < a || b <= i < |s| ==> drop(s[i]))
    && (r != [] ==> !drop(r[0]) && !drop(r[|r| - 1]))
  }

  lemma {:induction false} TrimLeftIs(s: text, drop: ascii -> bool)
    ensures var r := TrimLeft(s, drop);
            && |r| <= |s| && r == s[|s| - |r|..] && (forall i :: 0 <= i < |s| - |r| ==> drop(s[i]))
            && (r != [] ==> !drop(r[0]))
  {
    if s != [] && drop(s[0]) {
      TrimLeftIs(s[1..], drop);
      forall i | 0 <= i < |s| - |TrimLeft(s, drop)| ensures drop(s[i]) {
        assert i > 0 ==> s[i] == s[1..][i - 1];
      }
    }
  }

  lemma {:induction false} TrimRightIs(s: text, drop: ascii -> bool)
    ensures var r := TrimRight(s, drop);
            && |r| <= |s| && r == s[..|r|] && (forall i :: |r| <= i < |s| ==> drop(s[i]))
            && (r != [] ==> !drop(r[|r| - 1]))
  {
    if s != [] && drop(s[|s| - 1]) {
      TrimRightIs(s[..|s| - 1], drop);
    }
  }

  lemma TrimBoth(s: text, drop: ascii -> bool) returns (a: nat, b: nat)
    ensures Between(s, drop, a, b, TrimRight(TrimLeft(s, drop), drop))
  {
    hide TrimLeft, TrimRight;
    var half := TrimLeft(s, drop);
    TrimLeftIs(s, drop);
    TrimRightIs(half, drop);
    a := |s| - |half|;
    b := a + |TrimRight(half, drop)|;
    forall i | 0 <= i < a || b <= i < |s| ensures drop(s[i]) {
      assert i >= a ==> s[i] == half[i - a];
    }
  }

  /** White space is a blank or one of the codes 9 to 13. */
  predicate White(c: ascii) {
    c as int == 32 || 9 <= c as int <= 13
  }

  predicate Dot(c: ascii) {
    c as int == 46
  }

  /** Trimming space takes away exactly the white space at both ends. */
  lemma TrimSpaceIs(s: text) returns (a: nat, b: nat)
    ensures Between(s, White, a, b, TrimSpace(s))
  {
    a, b := TrimBoth(s, IsSpace);
    assert forall c: ascii :: IsSpace(c) <==> White(c);
  }

  /** Trimming dots takes away exactly the dots at both ends. */
  lemma TrimDotsIs(s: text) returns (a: nat, b: nat)
    ensures Between(s, Dot, a, b, TrimDots(s))
  {
    a, b := TrimBoth(s, IsDot);
    assert forall c: ascii :: IsDot(c) <==> Dot(c);
  }

  /** Closing dots are those behind the last other character. */
  lemma ClosingDots(s: text)
    ensures var r := TrimRight(s, IsDot);
            && |r| <= |s| && r == s[..|r|] && (forall i :: |r| <= i < |s| ==> s[i] as int == 46)
            && (r != [] ==> r[|r| - 1] as int != 46)
  {
    TrimRightIs(s, IsDot);
  }

  // ---------------------------------------------------------------- case

  /** The same character, or a capital letter and its small one, 32 codes apart. */
  predicate SameLetter(c: ascii, d: ascii) {
    || c == d
    || (65 <= c as int <= 90 && d as int == c as int + 32)
    || (65 <= d as int <= 90 && c as int == d as int + 32)
  }

  predicate Capital(c: ascii) {
    65 <= c as int <= 90
  }

  ghost predicate SameName(a: text, b: text) {
    |a| == |b| && forall i :: 0 <= i < |a| ==> SameLetter(a[i], b[i])
  }

  ghost predicate NoCapital(s: text) {
    forall i :: 0 <= i < |s| ==> !Capital(s[i])
  }

  lemma LowerLetter(c: ascii, d: ascii)
    ensures LowerChar(c) == LowerChar(d) <==> SameLetter(c, d)
    ensures !Capital(LowerChar(c)) && (!Capital(c) ==> LowerChar(c) == c)
    ensures IsSpace(LowerChar(c)) <==> IsSpace(c)
    ensures IsDot(LowerChar(c)) <==> IsDot(c)
  {
  }

  /** Lower-casing makes exactly those texts equal that differ in the case of letters only. */
  lemma LowerSame(a: text, b: text)
    ensures ToLower(a) == ToLower(b) <==> SameName(a, b)
    ensures NoCapital(ToLower(a)) && (NoCapital(a) ==> ToLower(a) == a)
  {
    hide LowerChar, SameLetter, Capital;
    forall i | 0 <= i < |a| && |a| == |b| ensures LowerChar(a[i]) == LowerChar(b[i]) <==> SameLetter(a[i], b[i]) {
      LowerLetter(a[i], b[i]);
    }
    forall i | 0 <= i < |a| ensures !Capital(LowerChar(a[i])) && (!Capital(a[i]) ==> LowerChar(a[i]) == a[i]) {
      LowerLetter(a[i], a[i]);
    }
    if ToLower(a) == ToLower(b) {
      forall i | 0 <= i < |a| ensures SameLetter(a[i], b[i]) {
        assert ToLower(a)[i] == ToLower(b)[i];
      }
    }
  }

  /** Lower-casing does not touch what is trimmed. */
  lemma {:induction false} LowerTrimLeft(s: text, drop: ascii -> bool)
    requires forall c: ascii :: drop(LowerChar(c)) == drop(c)
    ensures ToLower(TrimLeft(s, drop)) == TrimLeft(ToLower(s), drop)
  {
    hide LowerChar;
    if s != [] && drop(s[0]) {
      LowerTrimLeft(s[1..], drop);
      assert ToLower(s)[1..] == ToLower(s[1..]);
    }
  }

  lemma {:induction false} LowerTrimRightOf(s: text, drop: ascii -> bool)
    requires forall c: ascii :: drop(LowerChar(c)) == drop(c)
    ensures ToLower(TrimRight(s, drop)) == TrimRight(ToLower(s), drop)
  {
    hide LowerChar;
    if s != [] && drop(s[|s| - 1]) {
      LowerTrimRightOf(s[..|s| - 1], drop);
      assert ToLower(s)[..|s| - 1] == ToLower(s[..|s| - 1]);
    }
  }

  lemma LowerTrimSpace(s: text)
    ensures ToLower(TrimSpace(s)) == TrimSpace(ToLower(s))
  {
    hide ToLower, TrimLeft, TrimRight;
    forall c: ascii ensures IsSpace(LowerChar(c)) == IsSpace(c) {
      LowerLetter(c, c);
    }
    LowerTrimLeft(s, IsSpace);
    LowerTrimRightOf(TrimLeft(s, IsSpace), IsSpace);
  }

  /** What the panel encodes is the lower case of the trimmed text, however lower-casing and trimming are ordered. */
  lemma PanelNameIs(domain: text)
    ensures PanelName(domain) == ToLower(TrimDots(TrimSpace(domain)))
    ensures PanelName(domain) == TrimDots(TrimSpace(ToLower(domain)))
  {
    hide ToLower, TrimLeft, TrimRight;
    forall c: ascii ensures IsDot(LowerChar(c)) == IsDot(c) {
      LowerLetter(c, c);
    }
    var t := TrimSpace(domain);
    LowerTrimLeft(t, IsDot);
    LowerTrimRightOf(TrimLeft(t, IsDot), IsDot);
    LowerTrimSpace(domain);
  }

  // ---------------------------------------------------------------- keys

  /** Writing letters of a name in another case changes neither of its keys, nor any answer. */
  lemma CaseIgnored(a: text, b: text)
    requires SameName(a, b)
    ensures GeneratorKey(a) == GeneratorKey(b) && PanelKey(a) == PanelKey(b)
    ensures forall data :: Lookup(data, a) == Lookup(data, b)
  {
    hide ToLower, TrimLeft, TrimRight, SameName, Split, WireOf, LookupKey;
    LowerSame(a, b);
    LowerTrimRight(a);
    LowerTrimRight(b);
    PanelNameIs(a);
    PanelNameIs(b);
  }

  /** A listed name and a queried one share a key exactly when what trimming leaves of them is the same but for case. */
  lemma SharedKeyExactly(listed: text, query: text)
    requires GeneratorKey(listed).Some? && PanelKey(query).Some?
    ensures GeneratorKey(listed) == PanelKey(query) <==>
              SameName(TrimRight(listed, IsDot), TrimDots(TrimSpace(query)))
  {
    hide ToLower, TrimLeft, TrimRight, SameName, GeneratorKey, PanelKey;
    SameKeySameLabels(listed, query);
    PanelNameIs(query);
    LowerSame(TrimRight(listed, IsDot), TrimDots(TrimSpace(query)));
  }

  /** The same for two listed names, and for two queried ones. */
  lemma KeysSameExactly(a: text, b: text)
    ensures GeneratorKey(a).Some? && GeneratorKey(b).Some? ==>
              (GeneratorKey(a) == GeneratorKey(b) <==> SameName(TrimRight(a, IsDot), TrimRight(b, IsDot)))
    ensures PanelKey(a).Some? && PanelKey(b).Some? ==>
              (PanelKey(a) == PanelKey(b) <==> SameName(TrimDots(TrimSpace(a)), TrimDots(TrimSpace(b))))
  {
    hide ToLower, TrimLeft, TrimRight, SameName, GeneratorKey, PanelKey, TrimSpace;
    if GeneratorKey(a).Some? && GeneratorKey(b).Some? {
      SameKeySameName(a, b);
      LowerSame(TrimRight(a, IsDot), TrimRight(b, IsDot));
    }
    if PanelKey(a).Some? && PanelKey(b).Some? {
      PanelIsGeneratorOnTrimmed(a);
      PanelIsGeneratorOnTrimmed(b);
      PanelNameTrimmed(a);
      PanelNameTrimmed(b);
      SameKeySameName(PanelName(a), PanelName(b));
      PanelNameIs(a);
      PanelNameIs(b);
      LowerSame(TrimDots(TrimSpace(a)), TrimDots(TrimSpace(b)));
    }
  }

  /** Text made of one to 63 characters other than dots, with single dots in between, 253 in all. */
  ghost predicate DottedLabels(t: text) {
    && |t| <= 253
    && exists labels: seq<text> :: |labels| >= 1 && Join(labels, '.') == t && PlainLabels(labels)
  }

  ghost predicate PlainLabels(labels: seq<text>) {
    forall i :: 0 <= i < |labels| ==> 1 <= |labels[i]| <= 63 && '.' !in labels[i]
  }

  lemma LabelsAreDotted(t: text)
    ensures DottedLabels(t) <==> |t| <= 253 && LabelsOk(Split(t, '.'))
  {
    hide Split, Join;
    JoinSplit(t, '.');
    if DottedLabels(t) {
      var labels: seq<text> :| |labels| >= 1 && Join(labels, '.') == t && PlainLabels(labels);
      SplitJoin(labels, '.');
    }
    if |t| <= 253 && LabelsOk(Split(t, '.')) {
      var labels := Split(t, '.');
      assert forall i :: 0 <= i < |labels| ==> LabelOk(labels[i]);
      assert PlainLabels(labels);
    }
  }

  /** Which names have a key: those that trimming leaves as dotted labels. */
  lemma AcceptedExactly(domain: text)
    ensures GeneratorKey(domain).Some? <==> DottedLabels(ToLower(TrimRight(domain, IsDot)))
    ensures PanelKey(domain).Some? <==> DottedLabels(ToLower(TrimDots(TrimSpace(domain))))
  {
    hide ToLower, TrimLeft, TrimRight, DottedLabels, TrimSpace;
    var d, e := ToLower(TrimRight(domain, IsDot)), PanelName(domain);
    PanelNameIs(domain);
    LabelsAreDotted(d);
    LabelsAreDotted(e);
    LengthOf(d);
    LengthOf(e);
    SplitNothing();
  }

  lemma SplitNothing()
    ensures Split([], '.') == [[]]
  {
  }

  lemma LengthOf(d: text)
    ensures |WireOf(Split(d, '.'))| == |d| + 2
    ensures LabelsOk(Split(d, '.')) <==> !exists l :: l in Split(d, '.') && !LabelOk(l)
  {
    hide Split, Join, WireOf;
    JoinSplit(d, '.');
    WireLength(Split(d, '.'));
  }

  lemma {:induction false} PieceChars(s: text, sep: ascii, i: nat)
    requires i < |Split(s, sep)| && NoCapital(s)
    ensures NoCapital(Split(s, sep)[i])
  {
    hide Capital;
    if s != [] {
      var rest := Split(s[1..], sep);
      if i > 0 {
        PieceChars(s[1..], sep, if s[0] == sep then i - 1 else i);
      } else if s[0] != sep {
        PieceChars(s[1..], sep, 0);
      }
    }
  }

  lemma {:induction false} PrefixedLow(labels: seq<text>)
    requires LabelsOk(labels) && forall i :: 0 <= i < |labels| ==> NoCapital(labels[i])
    ensures forall b :: b in Prefixed(labels) ==> !(65 <= b <= 90)
  {
    if labels != [] {
      var n := |labels| - 1;
      assert LabelOk(labels[n]);
      PrefixedLow(labels[..n]);
      forall b | b in Encode(labels[n]) ensures !(65 <= b <= 90) {
        var i :| 0 <= i < |labels[n]| && Encode(labels[n])[i] == b;
        assert !Capital(labels[n][i]);
      }
    }
  }

  lemma WireLow(d: text)
    requires NoCapital(d) && LabelsOk(Split(d, '.'))
    ensures forall b :: b in WireOf(Split(d, '.')) ==> !(65 <= b <= 90)
  {
    hide Split, Prefixed, NoCapital;
    forall i | 0 <= i < |Split(d, '.')| ensures NoCapital(Split(d, '.')[i]) {
      PieceChars(d, '.', i);
    }
    PrefixedLow(Split(d, '.'));
  }

  /** No byte of a key is the code of a capital letter. */
  lemma KeysAreLow(domain: text)
    ensures GeneratorKey(domain).Some? ==> forall b :: b in GeneratorKey(domain).value ==> !(65 <= b <= 90)
    ensures PanelKey(domain).Some? ==> forall b :: b in PanelKey(domain).value ==> !(65 <= b <= 90)
  {
    hide ToLower, TrimLeft, TrimRight, Split, WireOf, NoCapital;
    if GeneratorKey(domain).Some? {
      LowerSame(TrimRight(domain, IsDot), []);
      LengthOf(ToLower(TrimRight(domain, IsDot)));
      WireLow(ToLower(TrimRight(domain, IsDot)));
    }
    if PanelKey(domain).Some? {
      PanelNameIs(domain);
      LowerSame(TrimDots(TrimSpace(domain)), []);
      LengthOf(PanelName(domain));
      WireLow(PanelName(domain));
    }
  }

  /** The name in the list that answers a query: the same but for case and what is trimmed. */
  ghost predicate ListedName(domains: seq<text>, query: text) {
    exists i :: 0 <= i < |domains| && GeneratorKey(domains[i]).Some?
                && SameName(TrimRight(domains[i], IsDot), TrimDots(TrimSpace(query)))
  }

  /**
   * End to end, in characters: over the file of a list without zero hashes, a query is a hit exactly when
   * some accepted name of the list is the same but for the case of letters and what trimming takes away.
   */
  lemma NameFoundExactly(data: seq<byte>, domains: seq<text>, val: seq<byte>, query: text)
    requires IsImage(data, RecordsOf(EntriesOf(domains, val))) && NoZeroHash(EntriesOf(domains, val))
    ensures Lookup(data, query) == Found <==> PanelKey(query).Some? && ListedName(domains, query)
  {
    hide GeneratorKey, PanelKey, IsImage, NoZeroHash, SameName, TrimRight, TrimDots, TrimSpace, EntriesOf, Lookup;
    NameRoundTrip(data, domains, val, query);
    if PanelKey(query).Some? {
      forall i | 0 <= i < |domains| && GeneratorKey(domains[i]).Some?
        ensures GeneratorKey(domains[i]) == PanelKey(query) <==>
                  SameName(TrimRight(domains[i], IsDot), TrimDots(TrimSpace(query)))
      {
        SharedKeyExactly(domains[i], query);
      }
    }
  }
}
