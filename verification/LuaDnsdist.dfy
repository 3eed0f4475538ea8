/** The resolver settings of a profile as a Lua file. */
module LuaDnsdist {
  import opened Basics
  import opened Bytes
  import opened LuaText
  import opened LuaTokens
  import opened LuaValues
  import opened LuaProfile
  import opened ProfileParse

  // PROFILE_ENABLED
  const PROFILE_ENABLED: bytes := [80, 82, 79, 70, 73, 76, 69, 95, 69, 78, 65, 66, 76, 69, 68]
  // PROFILE_BLOCK_MODE
  const BLOCK_MODE: bytes := [80, 82, 79, 70, 73, 76, 69, 95, 66, 76, 79, 67, 75, 95, 77, 79, 68, 69]
  // PROFILE_SINKHOLE_V4
  const SINKHOLE_V4: bytes := [80, 82, 79, 70, 73, 76, 69, 95, 83, 73, 78, 75, 72, 79, 76, 69, 95, 86, 52]
  // PROFILE_SINKHOLE_V6
  const SINKHOLE_V6: bytes := [80, 82, 79, 70, 73, 76, 69, 95, 83, 73, 78, 75, 72, 79, 76, 69, 95, 86, 54]
  // PROFILE_ACL
  const ACL: bytes := [80, 82, 79, 70, 73, 76, 69, 95, 65, 67, 76]
  // PROFILE_UPSTREAMS
  const UPSTREAMS: bytes := [80, 82, 79, 70, 73, 76, 69, 95, 85, 80, 83, 84, 82, 69, 65, 77, 83]
  // PROFILE_ECS_V4
  const ECS_V4: bytes := [80, 82, 79, 70, 73, 76, 69, 95, 69, 67, 83, 95, 86, 52]
  // PROFILE_ECS_V6
  const ECS_V6: bytes := [80, 82, 79, 70, 73, 76, 69, 95, 69, 67, 83, 95, 86, 54]
  // PROFILE_MAX_QPS_PER_IP
  const MAX_QPS: bytes := [80, 82, 79, 70, 73, 76, 69, 95, 77, 65, 88, 95, 81, 80, 83, 95, 80, 69, 82, 95, 73, 80]
  // PROFILE_TCP_MAX_CONNS
  const TCP_CONNS: bytes := [80, 82, 79, 70, 73, 76, 69, 95, 84, 67, 80, 95, 77, 65, 88, 95, 67, 79, 78, 78, 83]
  // PROFILE_TCP_MAX_QUERIES
  const TCP_QUERIES: bytes := [80, 82, 79, 70, 73, 76, 69, 95, 84, 67, 80, 95, 77, 65, 88, 95, 81, 85, 69, 82, 73, 69,
                               83]
  // name
  const NAME: bytes := [110, 97, 109, 101]
  // address
  const ADDRESS: bytes := [97, 100, 100, 114, 101, 115, 115]
  // pool
  const POOL: bytes := [112, 111, 111, 108]
  // dnsdist profile v1 (auto-generated by panel agent, do not edit)
  const SECTION_HEADING: bytes := [32, 100, 110, 115, 100, 105, 115, 116, 32, 112, 114, 111, 102, 105, 108, 101, 32,
                                   118, 49, 32, 40, 97, 117, 116, 111, 45, 103, 101, 110, 101, 114, 97] +
    [116, 101, 100, 32, 98, 121, 32, 112, 97, 110, 101, 108, 32, 97, 103, 101, 110, 116, 44, 32, 100, 111, 32, 110,
     111, 116, 32, 101, 100, 105, 116, 41]

  function StringList(xs: seq<string>): Value<string> {
    Table(Positionals(Texts(xs)))
  }

  function UpstreamValue(u: Upstream): Value<string> {
    Table(Cons(NAME, Text(u.name), Cons(ADDRESS, Text(u.address), Cons(POOL, Text(u.pool), Nil))))
  }

  function UpstreamValues(us: seq<Upstream>): (r: seq<Value<string>>)
    ensures |r| == |us|
  {
    seq(|us|, i requires 0 <= i < |us| => UpstreamValue(us[i]))
  }

  function SetIf(name: bytes, on: bool, v: Value<string>): seq<Stmt<string>> {
    if on then [Set(name, v)] else []
  }

  function SetInt(name: bytes, v: Option<int>): seq<Stmt<string>> {
    SetIf(name, v.Some?, Number(if v.Some? && v.value >= 0 then v.value else 0))
  }

  /** A setting that is empty or absent sets nothing: the node keeps its own. */
  function SectionProgram(d: Option<Section>): seq<Stmt<string>> {
    if d.None? then [Set(PROFILE_ENABLED, Flag(false))]
    else
      var s := d.value;
      [Set(PROFILE_ENABLED, Flag(true))]
      + SetIf(BLOCK_MODE, s.blockMode != "", Text(s.blockMode))
      + SetIf(SINKHOLE_V4, s.sinkholeV4 != [], StringList(s.sinkholeV4))
      + SetIf(SINKHOLE_V6, s.sinkholeV6 != [], StringList(s.sinkholeV6))
      + SetIf(ACL, s.acl != [], StringList(s.acl))
      + SetIf(UPSTREAMS, s.upstreams != [], Table(Positionals(UpstreamValues(s.upstreams))))
      + SetInt(ECS_V4, s.ecsV4) + SetInt(ECS_V6, s.ecsV6) + SetInt(MAX_QPS, s.maxQps)
      + SetInt(TCP_CONNS, s.maxConns) + SetInt(TCP_QUERIES, s.maxQueries)
  }

  /** The text so far is the heading and these statements. */
  ghost predicate Holds(b: bytes, p: seq<Stmt<string>>) {
    b == Heading(SECTION_HEADING) + PrintAll(p)
  }

  function SetLine(name: bytes, value: bytes): bytes {
    name + [SPACE, EQUAL, SPACE] + value + [NEWLINE]
  }

  lemma SetAppends(b: bytes, p: seq<Stmt<string>>, name: bytes, v: Value<string>)
    requires Holds(b, p)
    ensures Holds(b + SetLine(name, Print(v)), p + SetIf(name, true, v))
    ensures p + SetIf(name, false, v) == p
  {
    hide Print, PrintAll;
    var q := p + [Set(name, v)];
    PrintLast(q);
    assert q[..|q| - 1] == p;
  }

  method EmitStrings(b: bytes, ghost p: seq<Stmt<string>>, name: bytes, xs: seq<string>) returns (r: bytes)
    requires Holds(b, p)
    ensures Holds(r, p + SetIf(name, xs != [], StringList(xs)))
  {
    hide Holds, Print, SetLine, SetIf;
    SetAppends(b, p, name, StringList(xs));
    if xs == [] {
      return b;
    }
    var list := LuaStrList(xs);
    return b + SetLine(name, list);
  }

  method LuaInt(b: bytes, ghost p: seq<Stmt<string>>, name: bytes, v: Option<int>) returns (r: bytes)
    requires Holds(b, p) && (v.Some? ==> v.value >= 0)
    ensures Holds(r, p + SetInt(name, v))
  {
    hide Holds, Decimal, SetLine, SetIf;
    var n := if v.Some? then v.value else 0;
    SetAppends(b, p, name, Number(n));
    if v.None? {
      return b;
    }
    return b + SetLine(name, Decimal(n));
  }

  /** One upstream as a table with named fields. */
  method UpstreamText(u: Upstream) returns (b: bytes)
    ensures b == Print(UpstreamValue(u))
  {
    hide Quoted;
    var name := LuaQuote(u.name);
    var address := LuaQuote(u.address);
    var pool := LuaQuote(u.pool);
    var last := ADDRESS + [EQUAL] + address + [COMMA, SPACE] + (POOL + [EQUAL] + pool);
    b := [OPEN] + (NAME + [EQUAL] + name + [COMMA, SPACE] + last) + [CLOSE];
    RecordText(u);
  }

  lemma RecordText(u: Upstream)
    ensures Print(UpstreamValue(u)) ==
              [OPEN] + (NAME + [EQUAL] + Quoted(u.name) + [COMMA, SPACE]
                        + (ADDRESS + [EQUAL] + Quoted(u.address) + [COMMA, SPACE]
                           + (POOL + [EQUAL] + Quoted(u.pool)))) + [CLOSE]
  {
    hide Quoted;
    var pool: Fields<string> := Cons(POOL, Text(u.pool), Nil);
    var address := Cons(ADDRESS, Text(u.address), pool);
    assert |POOL| == 4 && |ADDRESS| == 7 && |NAME| == 4;
    assert PrintField(POOL, Text(u.pool)) == POOL + [EQUAL] + Quoted(u.pool);
    assert PrintField(ADDRESS, Text(u.address)) == ADDRESS + [EQUAL] + Quoted(u.address);
    assert PrintField(NAME, Text(u.name)) == NAME + [EQUAL] + Quoted(u.name);
    assert PrintFields(pool) == POOL + [EQUAL] + Quoted(u.pool);
    assert PrintFields(address) == ADDRESS + [EQUAL] + Quoted(u.address) + [COMMA, SPACE] + PrintFields(pool);
  }

  method EmitUpstreams(b: bytes, ghost p: seq<Stmt<string>>, us: seq<Upstream>) returns (r: bytes)
    requires Holds(b, p)
    ensures Holds(r, p + SetIf(UPSTREAMS, us != [], Table(Positionals(UpstreamValues(us)))))
  {
    hide Holds, SetLine, UpstreamValue, PrintFields, Positionals, SetIf, JoinBytes;
    var vs := UpstreamValues(us);
    SetAppends(b, p, UPSTREAMS, Table(Positionals(vs)));
    if us == [] {
      return b;
    }
    var parts: seq<bytes> := [];
    for i := 0 to |us|
      invariant |parts| == i && forall j :: 0 <= j < i ==> parts[j] == Print(vs[j])
    {
      var one := UpstreamText(us[i]);
      parts := parts + [one];
    }
    assert parts == Prints(vs);
    JoinPrints(vs);
    return b + SetLine(UPSTREAMS, [OPEN] + JoinBytes(parts) + [CLOSE]);
  }

  lemma OnlyEnabled()
    ensures forall b :: [] + SetIf(PROFILE_ENABLED, true, Flag(b)) == [Set(PROFILE_ENABLED, Flag(b))]
  {
  }

  /** The file for the resolver section; a section out of range is an error. */
  method GenerateDnsdistLua(net: Net, d: Option<Section>) returns (r: Option<bytes>)
    ensures r.Some? <==> d.None? || ValidSection(net, d.value)
    ensures r.Some? ==> r.value == Heading(SECTION_HEADING) + PrintAll(SectionProgram(d))
  {
    hide PrintAll, Heading, SetLine, SetIf, Quoted, PrintFlag, StringList, ValidSection;
    var b := Heading(SECTION_HEADING);
    ghost var p: seq<Stmt<string>> := [];
    PrintLast([]);
    assert Holds(b, p);
    hide Holds;
    OnlyEnabled();
    if d.None? {
      SetAppends(b, p, PROFILE_ENABLED, Flag(false));
      HoldsText(b + SetLine(PROFILE_ENABLED, PrintFlag(false)), SectionProgram(d));
      return Some(b + SetLine(PROFILE_ENABLED, PrintFlag(false)));
    }
    var s := d.value;
    var valid := ValidDnsdistSection(net, s);
    if !valid {
      return None;
    }
    RangesValid(net, s);
    SetAppends(b, p, PROFILE_ENABLED, Flag(true));
    b, p := b + SetLine(PROFILE_ENABLED, PrintFlag(true)), [Set(PROFILE_ENABLED, Flag(true))];
    SetAppends(b, p, BLOCK_MODE, Text(s.blockMode));
    if s.blockMode != "" {
      var mode := LuaQuote(s.blockMode);
      b := b + SetLine(BLOCK_MODE, mode);
    }
    p := p + SetIf(BLOCK_MODE, s.blockMode != "", Text(s.blockMode));
    ghost var p0 := p;
    b := EmitStrings(b, p, SINKHOLE_V4, s.sinkholeV4);
    p := p + SetIf(SINKHOLE_V4, s.sinkholeV4 != [], StringList(s.sinkholeV4));
    b := EmitStrings(b, p, SINKHOLE_V6, s.sinkholeV6);
    p := p + SetIf(SINKHOLE_V6, s.sinkholeV6 != [], StringList(s.sinkholeV6));
    b := EmitStrings(b, p, ACL, s.acl);
    p := p + SetIf(ACL, s.acl != [], StringList(s.acl));
    b := EmitUpstreams(b, p, s.upstreams);
    p := p + SetIf(UPSTREAMS, s.upstreams != [], Table(Positionals(UpstreamValues(s.upstreams))));
    b := EmitInts(b, p, s);
    p := p + SetInt(ECS_V4, s.ecsV4) + SetInt(ECS_V6, s.ecsV6) + SetInt(MAX_QPS, s.maxQps)
           + SetInt(TCP_CONNS, s.maxConns) + SetInt(TCP_QUERIES, s.maxQueries);
    HoldsText(b, SectionProgram(d));
    return Some(b);
  }

  method EmitInts(b: bytes, ghost p: seq<Stmt<string>>, s: Section) returns (r: bytes)
    requires Holds(b, p) && NoNegative(s)
    ensures Holds(r, p + SetInt(ECS_V4, s.ecsV4) + SetInt(ECS_V6, s.ecsV6) + SetInt(MAX_QPS, s.maxQps)
                       + SetInt(TCP_CONNS, s.maxConns) + SetInt(TCP_QUERIES, s.maxQueries))
  {
    hide Holds, SetInt;
    r := LuaInt(b, p, ECS_V4, s.ecsV4);
    ghost var p1 := p + SetInt(ECS_V4, s.ecsV4);
    r := LuaInt(r, p1, ECS_V6, s.ecsV6);
    p1 := p1 + SetInt(ECS_V6, s.ecsV6);
    r := LuaInt(r, p1, MAX_QPS, s.maxQps);
    p1 := p1 + SetInt(MAX_QPS, s.maxQps);
    r := LuaInt(r, p1, TCP_CONNS, s.maxConns);
    p1 := p1 + SetInt(TCP_CONNS, s.maxConns);
    r := LuaInt(r, p1, TCP_QUERIES, s.maxQueries);
  }

  ghost predicate NoNegative(s: Section) {
    && (s.ecsV4.Some? ==> s.ecsV4.value >= 0) && (s.ecsV6.Some? ==> s.ecsV6.value >= 0)
    && (s.maxQps.Some? ==> s.maxQps.value >= 0) && (s.maxConns.Some? ==> s.maxConns.value >= 0)
    && (s.maxQueries.Some? ==> s.maxQueries.value >= 0)
  }

  lemma RangesValid(net: Net, s: Section)
    requires ValidSection(net, s)
    ensures NoNegative(s)
  {
    hide Slug;
  }

  lemma HoldsText(b: bytes, p: seq<Stmt<string>>)
    requires Holds(b, p)
    ensures b == Heading(SECTION_HEADING) + PrintAll(p)
  {
  }

  lemma SettingNames()
    ensures IsName(PROFILE_ENABLED) && IsName(BLOCK_MODE)
    ensures IsName(SINKHOLE_V4) && IsName(SINKHOLE_V6)
    ensures IsName(ACL) && IsName(UPSTREAMS)
  {
  }

  lemma NumberNames()
    ensures IsName(ECS_V4) && IsName(ECS_V6)
    ensures IsName(MAX_QPS) && IsName(TCP_CONNS)
    ensures IsName(TCP_QUERIES)
  {
  }

  lemma FieldNames()
    ensures IsName(NAME) && IsName(ADDRESS) && IsName(POOL)
  {
  }

  lemma SectionHeading()
    ensures 10 !in SECTION_HEADING && SECTION_HEADING != [] && SECTION_HEADING[0] == SPACE
  {
  }

  lemma UpstreamNamed(u: Upstream)
    ensures Named(UpstreamValue(u))
  {
    hide IsName;
    FieldNames();
    var pool: Fields<string> := Cons(POOL, Text(u.pool), Nil);
    assert NamedFields(pool);
    var address := Cons(ADDRESS, Text(u.address), pool);
    assert NamedFields(address);
    assert NamedFields(Cons(NAME, Text(u.name), address));
  }

  lemma UpstreamsNamed(us: seq<Upstream>)
    ensures Named(Table(Positionals(UpstreamValues(us))))
  {
    hide Named;
    forall i | 0 <= i < |us| ensures Named(UpstreamValues(us)[i]) {
      UpstreamNamed(us[i]);
    }
    PositionalsNamed(UpstreamValues(us));
    TableNamed(UpstreamValues(us));
  }

  lemma TableNamed(vs: seq<Value<string>>)
    requires NamedFields(Positionals(vs))
    ensures Named(Table(Positionals(vs)))
  {
  }

  lemma SectionNamed(d: Section)
    ensures forall i :: 0 <= i < |SectionProgram(Some(d))| ==> WellNamed(SectionProgram(Some(d))[i])
  {
    hide IsName, Positionals, NamedFields, UpstreamValues;
    SettingNames();
    NumberNames();
    TextsNamed(d.sinkholeV4);
    TextsNamed(d.sinkholeV6);
    TextsNamed(d.acl);
    UpstreamsNamed(d.upstreams);
  }

  /** The file of any section, valid or absent, parses to exactly the settings that are present, in order. */
  lemma SectionRoundTrip(d: Option<Section>)
    ensures ParseText(Heading(SECTION_HEADING) + PrintAll(SectionProgram(d))) == Some(DenoteAll(SectionProgram(d)))
  {
    hide SetIf, IsName, Positionals, ParseText, PrintAll, DenoteAll, Named, UpstreamValues;
    SettingNames();
    if d.Some? {
      SectionNamed(d.value);
    } else {
      FlagNamed(false);
    }
    SectionHeading();
    PrintParses(SECTION_HEADING, SectionProgram(d));
  }

  lemma FlagNamed(b: bool)
    ensures Named(Flag(b))
  {
  }
}
