/** Validation of an uploaded profile and its canonical form. */
module ProfileParse {
  import opened Basics
  import opened Bytes
  import opened Text

  type Raw = seq<byte>

  datatype Rule = Rule(kind: string, name: string, file: string, pattern: string, target: string, ipSet: string,
                       targets: seq<string>, exclude: string)

  datatype Upstream = Upstream(name: string, address: string, pool: string)

  /** The settings of the resolver a profile may override; an empty or absent one keeps the node's own. */
  datatype Section = Section(blockMode: string, sinkholeV4: seq<string>, sinkholeV6: seq<string>, acl: seq<string>,
                             upstreams: seq<Upstream>, ecsV4: Option<int>, ecsV6: Option<int>, maxQps: Option<int>,
                             maxConns: Option<int>, maxQueries: Option<int>)

  /** The address parsers of the standard library. */
  datatype Net = Net(isV4: string -> bool, isV6: string -> bool, isPrefix: string -> bool, isAddrPort: string -> bool)

  /** A profile document; rules is None when the document gives none, or null. */
  datatype Profile = Profile(id: text, name: text, enabled: bool, rules: Option<seq<Rule>>, section: Option<Section>)

  /**
   * JSON and SHA-256 as the store uses them: strict decoding, marshalling, the indented form a
   * document takes inside the saved file, address parsing, and the hash.
   */
  datatype Codec = Codec(
    decode: Raw -> Option<Profile>,
    marshal: Profile -> Raw,
    indent: Raw -> Raw,
    net: Net,
    hash: Raw -> seq<byte>)

  function WithRules(p: Profile): Profile {
    p.(rules := Some(if p.rules.Some? then p.rules.value else []))
  }

  /** Marshalling a decoded profile decodes back to it, and indentation does not change what is decoded. */
  ghost predicate Faithful(c: Codec) {
    && (forall raw :: c.decode(raw).Some? ==>
          var p := WithRules(c.decode(raw).value); c.decode(c.marshal(p)) == Some(p))
    && (forall raw :: c.decode(c.indent(raw)) == c.decode(raw))
  }

  predicate SlugChar(x: char) {
    'a' <= x <= 'z' || '0' <= x <= '9' || x == '-'
  }

  predicate Slug(s: string) {
    1 <= |s| <= 40 && forall i :: 0 <= i < |s| ==> SlugChar(s[i])
  }

  predicate InRange(v: Option<int>, lo: int, hi: int) {
    v.Some? ==> lo <= v.value <= hi
  }

  predicate ValidSection(net: Net, d: Section) {
    && (d.blockMode == "" || d.blockMode == "adguard" || d.blockMode == "rpz")
    && (forall i :: 0 <= i < |d.sinkholeV4| ==> net.isV4(d.sinkholeV4[i]))
    && (forall i :: 0 <= i < |d.sinkholeV6| ==> net.isV6(d.sinkholeV6[i]))
    && |d.acl| <= 256 && (forall i :: 0 <= i < |d.acl| ==> net.isPrefix(d.acl[i]))
    && |d.upstreams| <= 64
    && (forall i :: 0 <= i < |d.upstreams| ==>
          var u := d.upstreams[i]; Slug(u.name) && Slug(u.pool) && net.isAddrPort(u.address))
    && InRange(d.ecsV4, 0, 32) && InRange(d.ecsV6, 0, 128) && InRange(d.maxQps, 1, 100000)
    && InRange(d.maxConns, 1, 10000) && InRange(d.maxQueries, 1, 100000)
  }

  method RangeInt(v: Option<int>, lo: int, hi: int) returns (ok: bool)
    ensures ok <==> InRange(v, lo, hi)
  {
    ok := v.None? || (lo <= v.value && v.value <= hi);
  }

  /** The checks in their order; each list is left at its first bad element. */
  method ValidDnsdistSection(net: Net, d: Section) returns (ok: bool)
    ensures ok <==> ValidSection(net, d)
  {
    hide Slug;
    if d.blockMode != "" && d.blockMode != "adguard" && d.blockMode != "rpz" {
      return false;
    }
    for i := 0 to |d.sinkholeV4|
      invariant forall j :: 0 <= j < i ==> net.isV4(d.sinkholeV4[j])
    {
      if !net.isV4(d.sinkholeV4[i]) {
        return false;
      }
    }
    for i := 0 to |d.sinkholeV6|
      invariant forall j :: 0 <= j < i ==> net.isV6(d.sinkholeV6[j])
    {
      if !net.isV6(d.sinkholeV6[i]) {
        return false;
      }
    }
    if |d.acl| > 256 {
      return false;
    }
    for i := 0 to |d.acl|
      invariant forall j :: 0 <= j < i ==> net.isPrefix(d.acl[j])
    {
      if !net.isPrefix(d.acl[i]) {
        return false;
      }
    }
    if |d.upstreams| > 64 {
      return false;
    }
    for i := 0 to |d.upstreams|
      invariant forall j :: 0 <= j < i ==>
                  var u := d.upstreams[j]; Slug(u.name) && Slug(u.pool) && net.isAddrPort(u.address)
    {
      var u := d.upstreams[i];
      if !Slug(u.name) || !Slug(u.pool) || !net.isAddrPort(u.address) {
        return false;
      }
    }
    ok := ValidNumbers(d);
  }

  method ValidNumbers(d: Section) returns (ok: bool)
    ensures ok <==>
              && InRange(d.ecsV4, 0, 32) && InRange(d.ecsV6, 0, 128) && InRange(d.maxQps, 1, 100000)
              && InRange(d.maxConns, 1, 10000) && InRange(d.maxQueries, 1, 100000)
  {
    ok := RangeInt(d.ecsV4, 0, 32);
    if !ok {
      return;
    }
    ok := RangeInt(d.ecsV6, 0, 128);
    if !ok {
      return;
    }
    ok := RangeInt(d.maxQps, 1, 100000);
    if !ok {
      return;
    }
    ok := RangeInt(d.maxConns, 1, 10000);
    if !ok {
      return;
    }
    ok := RangeInt(d.maxQueries, 1, 100000);
  }

  predicate ValidId(id: text) {
    Slug(id)
  }

  predicate ValidRule(r: Rule) {
    || (r.kind == "ip_set" && r.name != "" && r.file != "")
    || (r.kind == "cname" && r.pattern != "" && r.target != "")
    || (r.kind == "alias" && r.ipSet != "" && r.targets != [])
  }

  predicate Valid(c: Codec, p: Profile) {
    && ValidId(p.id)
    && TrimSpace(p.name) != "" && |p.name| <= 200
    && (p.section.Some? ==> ValidSection(c.net, p.section.value))
    && (p.rules.Some? ==> forall i :: 0 <= i < |p.rules.value| ==> ValidRule(p.rules.value[i]))
  }

  datatype Parsed = Parsed(profile: Profile, canon: Raw)

  /** The profile and its canonical bytes; None when decoding or validation fails. */
  function Parse(c: Codec, raw: Raw): (r: Option<Parsed>) {
    var d := c.decode(raw);
    if d.Some? && Valid(c, d.value) then Some(Parsed(WithRules(d.value), c.marshal(WithRules(d.value)))) else None
  }

  /** Decoding, the checks in their order up to the first that fails, and the canonical bytes. */
  method ParseSmartDistProfile(c: Codec, raw: Raw) returns (r: Option<Parsed>)
    ensures r == Parse(c, raw)
  {
    hide Slug, ValidSection, TrimSpace;
    var decoded := c.decode(raw);
    if decoded.None? {
      return None;
    }
    var p := decoded.value;
    if !ValidId(p.id) || TrimSpace(p.name) == "" || |p.name| > 200 {
      return None;
    }
    if p.section.Some? {
      var ok := ValidDnsdistSection(c.net, p.section.value);
      if !ok {
        return None;
      }
    }
    if p.rules.Some? {
      var rules := p.rules.value;
      for i := 0 to |rules|
        invariant forall j :: 0 <= j < i ==> ValidRule(rules[j])
      {
        if !ValidRule(rules[i]) {
          return None;
        }
      }
    }
    r := Some(Parsed(WithRules(p), c.marshal(WithRules(p))));
  }

  /** The canonical bytes, also as they stand in the saved file, parse to themselves. */
  lemma CanonicalParses(c: Codec, raw: Raw)
    requires Faithful(c) && Parse(c, raw).Some?
    ensures var r := Parse(c, raw); Parse(c, r.value.canon) == r && Parse(c, c.indent(r.value.canon)) == r
  {
    var p := Parse(c, raw).value.profile;
    assert c.decode(c.marshal(p)) == Some(p);
    assert WithRules(p) == p;
  }
}
