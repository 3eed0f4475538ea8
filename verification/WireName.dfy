/** DNS wire-format names as CDB keys: the generator's wire_name and the panel's wireDomainKey. */
module WireName {
  import opened Basics
  import opened Bytes
  import opened Text

  // ------------------------------------------------------- wire encoding

  function Encode(s: text): (bs: seq<byte>)
    ensures |bs| == |s|
  {
    seq(|s|, i requires 0 <= i < |s| => s[i] as int)
  }

  predicate LabelOk(name: text) {
    1 <= |name| <= 63
  }

  ghost predicate LabelsOk(labels: seq<text>) {
    forall i :: 0 <= i < |labels| ==> LabelOk(labels[i])
  }

  /** Length-prefixed labels, without the closing zero. */
  function Prefixed(labels: seq<text>): seq<byte> {
    if labels == [] then []
    else
      var last := labels[|labels| - 1];
      Prefixed(labels[..|labels| - 1]) + [|last| % 256] + Encode(last)
  }

  function WireOf(labels: seq<text>): seq<byte> {
    Prefixed(labels) + [0]
  }

  /** Reads a wire-format name back into its labels. */
  function Decode(bs: seq<byte>): Option<seq<text>> {
    if bs == [] then None
    else if bs[0] == 0 then (if |bs| == 1 then Some([]) else None)
    else if bs[0] > 63 || 1 + bs[0] > |bs| then None
    else
      var raw := bs[1..1 + bs[0]];
      if exists b :: b in raw && b >= 128 then None
      else
        match Decode(bs[1 + bs[0]..])
        case None => None
        case Some(rest) => Some([FromBytes(raw)] + rest)
  }

  function FromBytes(raw: seq<byte>): text {
    seq(|raw|, i requires 0 <= i < |raw| => Ascii(raw[i]))
  }

  lemma FromBytesEncode(s: text)
    ensures FromBytes(Encode(s)) == s
    ensures !exists b :: b in Encode(s) && b >= 128
  {
  }

  function Ascii(b: byte): ascii {
    if b < 128 then b as char else 'a'
  }

  lemma {:induction false} PrefixedCons(l: text, labels: seq<text>)
    ensures Prefixed([l] + labels) == [(|l| % 256) as byte] + Encode(l) + Prefixed(labels)
  {
    if labels == [] {
      assert [l] + labels == [l];
      assert Prefixed([l][..0]) == [];
    } else {
      var all, k := [l] + labels, |labels| - 1;
      assert all[..|all| - 1] == [l] + labels[..k];
      PrefixedCons(l, labels[..k]);
    }
  }

  /** Decoding a wire name gives back exactly its labels. */
  lemma {:induction false} DecodeWire(labels: seq<text>)
    requires LabelsOk(labels)
    ensures Decode(WireOf(labels)) == Some(labels)
  {
    hide Prefixed, Encode, FromBytes, Decode;
    if labels == [] {
      NoLabels();
    } else {
      var l, rest := labels[0], labels[1..];
      assert LabelOk(l);
      assert labels == [l] + rest;
      PrefixedCons(l, rest);
      DecodeWire(rest);
      FromBytesEncode(l);
      DecodeOne(Encode(l), WireOf(rest));
      assert WireOf(labels) == [|l| as byte] + Encode(l) + WireOf(rest);
    }
    assert [] + [0] == [0];
  }

  lemma NoLabels()
    ensures Prefixed([]) == [] && Decode([0]) == Some([])
  {
  }

  /** Decoding takes off the first label. */
  lemma DecodeOne(raw: seq<byte>, rest: seq<byte>)
    requires 1 <= |raw| <= 63 && (!exists b :: b in raw && b >= 128) && Decode(rest).Some?
    ensures Decode([|raw| as byte] + raw + rest) == Some([FromBytes(raw)] + Decode(rest).value)
  {
    var bs := [|raw| as byte] + raw + rest;
    assert bs[1..1 + bs[0]] == raw;
    assert bs[1 + bs[0]..] == rest;
  }

  lemma WireInjective(a: seq<text>, b: seq<text>)
    requires LabelsOk(a) && LabelsOk(b) && WireOf(a) == WireOf(b)
    ensures a == b
  {
    DecodeWire(a);
    DecodeWire(b);
  }

  /** A wire name is two octets longer than its dotted text. */
  lemma {:induction false} WireLength(labels: seq<text>)
    requires |labels| >= 1
    ensures |WireOf(labels)| == |Join(labels, '.')| + 2
  {
    PrefixedCons(labels[0], labels[1..]);
    assert labels == [labels[0]] + labels[1..];
    if |labels| > 1 {
      WireLength(labels[1..]);
    }
  }

  // --------------------------------------------------------- generator

  predicate IsDot(c: ascii) {
    c == '.'
  }

  /** Specification of the generator's wire_name: None stands for its ValueError. */
  function GeneratorKey(domain: text): Option<seq<byte>> {
    var d := ToLower(TrimRight(domain, IsDot));
    var labels := Split(d, '.');
    if d == [] || (exists l :: l in labels && !LabelOk(l)) || |WireOf(labels)| > 255 then None
    else Some(WireOf(labels))
  }

  method GeneratorWireName(domain: text) returns (r: Option<seq<byte>>)
    ensures r == GeneratorKey(domain)
  {
    var d := ToLower(TrimRight(domain, IsDot));
    if d == [] {
      return None;
    }
    var labels := Split(d, '.');
    var out: seq<byte> := [];
    for i := 0 to |labels|
      invariant forall j :: 0 <= j < i ==> LabelOk(labels[j])
      invariant out == Prefixed(labels[..i])
    {
      var name := labels[i];
      assert name in labels;
      if name == [] {
        return None;
      }
      var raw := Encode(name);
      if |raw| > 63 {
        return None;
      }
      assert labels[..i + 1][..i] == labels[..i];
      out := out + [|raw|] + raw;
    }
    assert labels[..|labels|] == labels;
    out := out + [0];
    if |out| > 255 {
      return None;
    }
    r := Some(out);
  }

  // -------------------------------------------------------------- panel

  function TrimDots(s: text): text {
    TrimRight(TrimLeft(s, IsDot), IsDot)
  }

  /** The name the panel actually encodes. */
  function PanelName(domain: text): text {
    TrimDots(ToLower(TrimSpace(domain)))
  }

  /** Specification of the panel's wireDomainKey. */
  function PanelKey(domain: text): Option<seq<byte>> {
    var d := PanelName(domain);
    var labels := Split(d, '.');
    if d == [] || |d| > 253 || (exists l :: l in labels && !LabelOk(l)) then None
    else Some(WireOf(labels))
  }

  method PanelWireDomainKey(domain: text) returns (r: Option<seq<byte>>)
    ensures r == PanelKey(domain)
  {
    var d := TrimDots(ToLower(TrimSpace(domain)));
    if d == [] || |d| > 253 {
      return None;
    }
    var labels := Split(d, '.');
    var key: seq<byte> := [];
    for i := 0 to |labels|
      invariant forall j :: 0 <= j < i ==> LabelOk(labels[j])
      invariant key == Prefixed(labels[..i])
    {
      var name := labels[i];
      assert name in labels;
      if name == [] || |name| > 63 {
        return None;
      }
      assert labels[..i + 1][..i] == labels[..i];
      key := key + [|name|] + Encode(name);
    }
    assert labels[..|labels|] == labels;
    r := Some(key + [0]);
  }

  // --------------------------------------------------------- agreement

  lemma {:induction false} LowerTrimRight(s: text)
    ensures ToLower(TrimRight(s, IsDot)) == TrimRight(ToLower(s), IsDot)
  {
    if s != [] && IsDot(s[|s| - 1]) {
      LowerTrimRight(s[..|s| - 1]);
      assert ToLower(s)[..|s| - 1] == ToLower(s[..|s| - 1]);
    }
  }

  /** On text the panel would not trim on the left or of spaces, both encoders agree: 253 characters are 255 octets. */
  lemma KeysAgree(domain: text)
    requires TrimSpace(domain) == domain
    requires domain != [] ==> domain[0] != '.'
    ensures PanelKey(domain) == GeneratorKey(domain)
  {
    LowerTrimRight(domain);
    var d := PanelName(domain);
    assert TrimLeft(ToLower(domain), IsDot) == ToLower(domain);
    var labels := Split(d, '.');
    JoinSplit(d, '.');
    WireLength(labels);
  }

  /** Whatever the input, the panel's key is the generator's key of the name it trimmed. */
  lemma PanelIsGeneratorOnTrimmed(domain: text)
    ensures PanelKey(domain) == GeneratorKey(PanelName(domain))
  {
    var d := PanelName(domain);
    var s := TrimLeft(ToLower(TrimSpace(domain)), IsDot);
    TrimRightDone(s);
    LowerTrimmed(TrimSpace(domain));
    JoinSplit(d, '.');
    WireLength(Split(d, '.'));
  }

  lemma {:induction false} TrimRightDone(s: text)
    ensures TrimRight(TrimRight(s, IsDot), IsDot) == TrimRight(s, IsDot)
  {
    if s != [] && IsDot(s[|s| - 1]) {
      TrimRightDone(s[..|s| - 1]);
    }
  }

  /** Trimming dots keeps lower-case text lower-case. */
  lemma LowerTrimmed(s: text)
    ensures ToLower(TrimDots(ToLower(s))) == TrimDots(ToLower(s))
  {
    LowerIdempotent(s);
    TrimLeftSub(ToLower(s));
    TrimRightSub(TrimLeft(ToLower(s), IsDot));
  }

  lemma {:induction false} TrimLeftSub(s: text)
    requires ToLower(s) == s
    ensures ToLower(TrimLeft(s, IsDot)) == TrimLeft(s, IsDot)
  {
    if s != [] && IsDot(s[0]) {
      assert ToLower(s[1..]) == ToLower(s)[1..];
      TrimLeftSub(s[1..]);
    }
  }

  lemma {:induction false} TrimRightSub(s: text)
    requires ToLower(s) == s
    ensures ToLower(TrimRight(s, IsDot)) == TrimRight(s, IsDot)
  {
    LowerTrimRight(s);
  }

  /**
   * The two encoders agree on a name if and only if both trim it to the same text, or both refuse it: the
   * generator removes closing dots only, the panel also leading ones and the white space around them.
   */
  lemma KeysAgreeExactly(domain: text)
    ensures PanelKey(domain) == GeneratorKey(domain) <==>
              || ToLower(TrimRight(domain, IsDot)) == PanelName(domain)
              || (PanelKey(domain).None? && GeneratorKey(domain).None?)
  {
    PanelIsGeneratorOnTrimmed(domain);
    LowerTrimRight(domain);
    PanelNameTrimmed(domain);
    if PanelKey(domain).Some? || GeneratorKey(domain).Some? {
      SameKeySameName(domain, PanelName(domain));
    }
  }

  /** The panel's name is in the form the generator gives a name. */
  lemma PanelNameTrimmed(domain: text)
    ensures ToLower(TrimRight(PanelName(domain), IsDot)) == PanelName(domain)
  {
    TrimRightDone(TrimLeft(ToLower(TrimSpace(domain)), IsDot));
    LowerTrimmed(TrimSpace(domain));
  }

  /** Names the generator accepts have one key exactly when it trims them to one text. */
  lemma SameKeySameName(a: text, b: text)
    requires GeneratorKey(a).Some? || GeneratorKey(b).Some?
    ensures GeneratorKey(a) == GeneratorKey(b) <==> ToLower(TrimRight(a, IsDot)) == ToLower(TrimRight(b, IsDot))
  {
    hide Split, Prefixed, ToLower, TrimRight;
    var d, e := ToLower(TrimRight(a, IsDot)), ToLower(TrimRight(b, IsDot));
    if GeneratorKey(a).Some? && GeneratorKey(b).Some? && WireOf(Split(d, '.')) == WireOf(Split(e, '.')) {
      WireInjective(Split(d, '.'), Split(e, '.'));
      JoinSplit(d, '.');
      JoinSplit(e, '.');
    }
  }

  /** A leading dot separates them. */
  lemma KeysDisagree()
    ensures PanelKey(".a") == Some([1, 97, 0]) && GeneratorKey(".a") == None
  {
    var s: text := ".a";
    assert TrimRight(s, IsDot) == s && ToLower(s) == s;
    assert Split(s, '.') == [[], "a"] by {
      assert s[1..] == "a";
      SplitPiece("a", '.');
    }
    assert !LabelOk(Split(s, '.')[0]);
    assert TrimSpace(s) == s;
    assert TrimLeft(s[1..], IsDot) == "a" && TrimRight("a", IsDot) == "a";
    assert PanelName(s) == "a";
    SplitPiece("a", '.');
    assert Prefixed(["a"][..0]) == [];
    assert WireOf(["a"]) == [1, 97, 0];
  }

  /** A space in front separates them too: the generator encodes it. */
  lemma SpaceDisagrees()
    ensures PanelKey(" a") == Some([1, 97, 0]) && GeneratorKey(" a") == Some([2, 32, 97, 0])
  {
    hide Split, Prefixed;
    var s: text := " a";
    assert TrimRight(s, IsDot) == s && ToLower(s) == s;
    assert s[1..] == "a" && TrimLeft("a", IsSpace) == "a" && TrimRight("a", IsSpace) == "a";
    assert TrimSpace(s) == "a" && TrimLeft("a", IsDot) == "a" && TrimRight("a", IsDot) == "a";
    assert PanelName(s) == "a";
    OneLabel("a");
    OneLabel(s);
    assert Encode("a") == [97] && Encode(s) == [32, 97];
    assert WireOf(["a"]) == [1, 97, 0] && WireOf([s]) == [2, 32, 97, 0];
    assert Split("a", '.')[0] == "a" && Split(s, '.')[0] == s;
  }

  lemma OneLabel(l: text)
    requires '.' !in l && |l| <= 63
    ensures Split(l, '.') == [l] && WireOf([l]) == [|l| as byte] + Encode(l) + [0]
  {
    SplitPiece(l, '.');
    PrefixedCons(l, []);
    assert [l] + [] == [l] && Prefixed([]) == [];
  }
}
