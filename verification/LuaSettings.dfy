/** What a node finds in the Lua files of a profile, by the names it looks for, written as text. */
module LuaSettings {
  import opened Basics
  import opened Bytes
  import opened LuaText
  import opened LuaTokens
  import opened LuaValues
  import opened LuaProfile
  import opened LuaDnsdist
  import opened ProfileParse

  /** The codes of an ASCII text. */
  function Codes(s: string): (r: bytes)
    ensures |r| == |s|
  {
    seq(|s|, i requires 0 <= i < |s| => (s[i] as int) % 256)
  }

  /** The value a global variable has after these statements, if they set it. */
  function Setting<S>(p: seq<Stmt<S>>, name: bytes): Option<Value<S>> {
    if p == [] then None
    else if p[|p| - 1].Set? && p[|p| - 1].name == name then Some(p[|p| - 1].value)
    else Setting(p[..|p| - 1], name)
  }

  function DenoteOption(v: Option<Value<string>>): Option<Value<bytes>> {
    if v.None? then None else Some(Denote(v.value))
  }

  lemma {:induction false} SettingDenoted(p: seq<Stmt<string>>, name: bytes)
    ensures Setting(DenoteAll(p), name) == DenoteOption(Setting(p, name))
  {
    hide Denote;
    if p != [] {
      var n := |p| - 1;
      SettingDenoted(p[..n], name);
      assert DenoteAll(p)[..n] == DenoteAll(p[..n]);
    }
  }

  lemma SettingNext(p: seq<Stmt<string>>, name: bytes, on: bool, v: Value<string>, asked: bytes)
    ensures Setting(p + SetIf(name, on, v), asked) == if on && name == asked then Some(v) else Setting(p, asked)
  {
    if on {
      assert (p + [Set(name, v)])[..|p|] == p;
    } else {
      assert p + [] == p;
    }
  }

  /** The number a present setting is given. */
  function IntValue(v: Option<int>): Value<string> {
    Number(if v.Some? && v.value >= 0 then v.value else 0)
  }

  /** The statements for the settings that are no numbers. */
  ghost function TextProgram(s: Section): seq<Stmt<string>> {
    [Set(PROFILE_ENABLED, Flag(true))]
    + SetIf(BLOCK_MODE, s.blockMode != "", Text(s.blockMode))
    + SetIf(SINKHOLE_V4, s.sinkholeV4 != [], StringList(s.sinkholeV4))
    + SetIf(SINKHOLE_V6, s.sinkholeV6 != [], StringList(s.sinkholeV6))
    + SetIf(ACL, s.acl != [], StringList(s.acl))
    + SetIf(UPSTREAMS, s.upstreams != [], Table(Positionals(UpstreamValues(s.upstreams))))
  }

  lemma TextSetting(s: Section, asked: bytes)
    ensures Setting(TextProgram(s), asked) ==
              if s.upstreams != [] && asked == UPSTREAMS then
                Some(Table(Positionals(UpstreamValues(s.upstreams))))
              else if s.acl != [] && asked == ACL then Some(StringList(s.acl))
              else if s.sinkholeV6 != [] && asked == SINKHOLE_V6 then Some(StringList(s.sinkholeV6))
              else if s.sinkholeV4 != [] && asked == SINKHOLE_V4 then Some(StringList(s.sinkholeV4))
              else if s.blockMode != "" && asked == BLOCK_MODE then Some(Text(s.blockMode))
              else if asked == PROFILE_ENABLED then Some(Flag(true))
              else None
  {
    hide SetIf, Positionals, UpstreamValues, StringList, Setting;
    var p: seq<Stmt<string>> := [Set(PROFILE_ENABLED, Flag(true))];
    FirstSetting(asked);
    SettingNext(p, BLOCK_MODE, s.blockMode != "", Text(s.blockMode), asked);
    p := p + SetIf(BLOCK_MODE, s.blockMode != "", Text(s.blockMode));
    SettingNext(p, SINKHOLE_V4, s.sinkholeV4 != [], StringList(s.sinkholeV4), asked);
    p := p + SetIf(SINKHOLE_V4, s.sinkholeV4 != [], StringList(s.sinkholeV4));
    SettingNext(p, SINKHOLE_V6, s.sinkholeV6 != [], StringList(s.sinkholeV6), asked);
    p := p + SetIf(SINKHOLE_V6, s.sinkholeV6 != [], StringList(s.sinkholeV6));
    SettingNext(p, ACL, s.acl != [], StringList(s.acl), asked);
    p := p + SetIf(ACL, s.acl != [], StringList(s.acl));
    SettingNext(p, UPSTREAMS, s.upstreams != [], Table(Positionals(UpstreamValues(s.upstreams))), asked);
  }

  lemma NumberSetting(p: seq<Stmt<string>>, name: bytes, v: Option<int>, asked: bytes)
    ensures Setting(p + SetInt(name, v), asked)
         == if v.Some? && name == asked then Some(IntValue(v)) else Setting(p, asked)
  {
    hide SetIf, Setting;
    SettingNext(p, name, v.Some?, IntValue(v), asked);
  }

  /** What a section sets, seen from its last statement. */
  lemma SectionSetting(s: Section, asked: bytes)
    ensures Setting(SectionProgram(Some(s)), asked) ==
              if s.maxQueries.Some? && asked == TCP_QUERIES then Some(IntValue(s.maxQueries))
              else if s.maxConns.Some? && asked == TCP_CONNS then Some(IntValue(s.maxConns))
              else if s.maxQps.Some? && asked == MAX_QPS then Some(IntValue(s.maxQps))
              else if s.ecsV6.Some? && asked == ECS_V6 then Some(IntValue(s.ecsV6))
              else if s.ecsV4.Some? && asked == ECS_V4 then Some(IntValue(s.ecsV4))
              else Setting(TextProgram(s), asked)
  {
    hide SetIf, SetInt, IntValue, Setting, Positionals, UpstreamValues, StringList;
    var p := TextProgram(s);
    var p1 := p + SetInt(ECS_V4, s.ecsV4);
    var p2 := p1 + SetInt(ECS_V6, s.ecsV6);
    var p3 := p2 + SetInt(MAX_QPS, s.maxQps);
    var p4 := p3 + SetInt(TCP_CONNS, s.maxConns);
    assert SectionProgram(Some(s)) == p4 + SetInt(TCP_QUERIES, s.maxQueries);
    hide TextProgram, SectionProgram;
    NumberSetting(p, ECS_V4, s.ecsV4, asked);
    NumberSetting(p1, ECS_V6, s.ecsV6, asked);
    NumberSetting(p2, MAX_QPS, s.maxQps, asked);
    NumberSetting(p3, TCP_CONNS, s.maxConns, asked);
    NumberSetting(p4, TCP_QUERIES, s.maxQueries, asked);
  }

  lemma FirstSetting(asked: bytes)
    ensures var p: seq<Stmt<string>> := [Set(PROFILE_ENABLED, Flag(true))];
            Setting(p, asked) == if asked == PROFILE_ENABLED then Some(Flag(true)) else None
  {
    var p: seq<Stmt<string>> := [Set(PROFILE_ENABLED, Flag(true))];
    assert p[..0] == [];
    assert Setting(p[..0], asked) == None;
  }

  lemma EnabledText()
    ensures PROFILE_ENABLED == Codes("PROFILE_ENABLED")
  {
  }

  lemma BlockModeText()
    ensures BLOCK_MODE == Codes("PROFILE_BLOCK_MODE")
  {
  }

  lemma SinkholeV4Text()
    ensures SINKHOLE_V4 == Codes("PROFILE_SINKHOLE_V4")
  {
  }

  lemma SinkholeV6Text()
    ensures SINKHOLE_V6 == Codes("PROFILE_SINKHOLE_V6")
  {
  }

  lemma AclText()
    ensures ACL == Codes("PROFILE_ACL")
  {
  }

  lemma UpstreamsText()
    ensures UPSTREAMS == Codes("PROFILE_UPSTREAMS")
  {
  }

  lemma EcsV4Text()
    ensures ECS_V4 == Codes("PROFILE_ECS_V4")
  {
  }

  lemma EcsV6Text()
    ensures ECS_V6 == Codes("PROFILE_ECS_V6")
  {
  }

  lemma MaxQpsText()
    ensures MAX_QPS == Codes("PROFILE_MAX_QPS_PER_IP")
  {
  }

  lemma TcpConnsText()
    ensures TCP_CONNS == Codes("PROFILE_TCP_MAX_CONNS")
  {
  }

  lemma TcpQueriesText()
    ensures TCP_QUERIES == Codes("PROFILE_TCP_MAX_QUERIES")
  {
  }

  /** The names of the settings as text. */
  lemma NamesAsText()
    ensures PROFILE_ENABLED == Codes("PROFILE_ENABLED")
    ensures BLOCK_MODE == Codes("PROFILE_BLOCK_MODE")
    ensures SINKHOLE_V4 == Codes("PROFILE_SINKHOLE_V4")
    ensures SINKHOLE_V6 == Codes("PROFILE_SINKHOLE_V6")
    ensures ACL == Codes("PROFILE_ACL")
    ensures UPSTREAMS == Codes("PROFILE_UPSTREAMS")
  {
    hide Codes;
    EnabledText();
    BlockModeText();
    SinkholeV4Text();
    SinkholeV6Text();
    AclText();
    UpstreamsText();
  }

  /** The names of the numbers as text. */
  lemma NumberNamesAsText()
    ensures ECS_V4 == Codes("PROFILE_ECS_V4")
    ensures ECS_V6 == Codes("PROFILE_ECS_V6")
    ensures MAX_QPS == Codes("PROFILE_MAX_QPS_PER_IP")
    ensures TCP_CONNS == Codes("PROFILE_TCP_MAX_CONNS")
    ensures TCP_QUERIES == Codes("PROFILE_TCP_MAX_QUERIES")
  {
    hide Codes;
    EcsV4Text();
    EcsV6Text();
    MaxQpsText();
    TcpConnsText();
    TcpQueriesText();
  }

  lemma NameText()
    ensures NAME == Codes("name")
  {
  }

  lemma AddressText()
    ensures ADDRESS == Codes("address")
  {
  }

  lemma PoolText()
    ensures POOL == Codes("pool")
  {
  }

  /** The names of an upstream's fields as text. */
  lemma FieldNamesAsText()
    ensures NAME == Codes("name")
    ensures ADDRESS == Codes("address")
    ensures POOL == Codes("pool")
  {
    hide Codes;
    NameText();
    AddressText();
    PoolText();
  }

  /** All names differ. */
  lemma NamesDiffer()
    ensures |PROFILE_ENABLED| == 15 && |BLOCK_MODE| == 18 && |SINKHOLE_V4| == 19 && |SINKHOLE_V6| == 19
    ensures |ACL| == 11 && |UPSTREAMS| == 17 && |ECS_V4| == 14 && |ECS_V6| == 14
    ensures |MAX_QPS| == 22 && |TCP_CONNS| == 21 && |TCP_QUERIES| == 23
    ensures SINKHOLE_V4 != SINKHOLE_V6 && ECS_V4 != ECS_V6
  {
    assert SINKHOLE_V4[18] != SINKHOLE_V6[18];
    assert ECS_V4[13] != ECS_V6[13];
  }

  // ---------------------------------------------------------------- values

  /** A list of strings, as their bytes, without names. */
  ghost predicate IsList(fs: Fields<bytes>, xs: seq<string>)
    decreases |xs|
  {
    if xs == [] then fs.Nil?
    else fs.Cons? && fs.name == [] && fs.value == Text(Utf8(xs[0])) && IsList(fs.rest, xs[1..])
  }

  /** An upstream as a table of three named strings. */
  ghost predicate IsUpstream(v: Value<bytes>, u: Upstream) {
    v == Table(Cons(Codes("name"), Text(Utf8(u.name)),
                    Cons(Codes("address"), Text(Utf8(u.address)), Cons(Codes("pool"), Text(Utf8(u.pool)), Nil))))
  }

  ghost predicate AreUpstreams(fs: Fields<bytes>, us: seq<Upstream>)
    decreases |us|
  {
    if us == [] then fs.Nil?
    else fs.Cons? && fs.name == [] && IsUpstream(fs.value, us[0]) && AreUpstreams(fs.rest, us[1..])
  }

  lemma {:induction false} ListDenoted(xs: seq<string>)
    ensures IsList(DenoteFields(Positionals(Texts(xs))), xs)
    decreases |xs|
  {
    hide Utf8;
    if xs != [] {
      ListDenoted(xs[1..]);
      assert Texts(xs)[1..] == Texts(xs[1..]);
    }
  }

  lemma UpstreamDenoted(u: Upstream)
    ensures IsUpstream(Denote(UpstreamValue(u)), u)
  {
    hide Utf8, Codes;
    FieldNamesAsText();
    var pool: Fields<string> := Cons(POOL, Text(u.pool), Nil);
    assert DenoteFields(pool) == Cons(POOL, Text(Utf8(u.pool)), Nil);
    var address := Cons(ADDRESS, Text(u.address), pool);
    assert DenoteFields(address) == Cons(ADDRESS, Text(Utf8(u.address)), DenoteFields(pool));
    var all := Cons(NAME, Text(u.name), address);
    assert DenoteFields(all) == Cons(NAME, Text(Utf8(u.name)), DenoteFields(address));
    assert UpstreamValue(u) == Table(all);
  }

  lemma {:induction false} UpstreamsDenoted(us: seq<Upstream>)
    ensures AreUpstreams(DenoteFields(Positionals(UpstreamValues(us))), us)
    decreases |us|
  {
    hide UpstreamValue, IsUpstream;
    if us != [] {
      UpstreamDenoted(us[0]);
      UpstreamsDenoted(us[1..]);
      assert UpstreamValues(us)[1..] == UpstreamValues(us[1..]);
    }
  }

  /** A list setting: set exactly when the list is not empty, and then to the list. */
  ghost predicate HoldsList(v: Option<Value<bytes>>, xs: seq<string>) {
    if xs == [] then v == None else v.Some? && v.value.Table? && IsList(v.value.fields, xs)
  }

  ghost predicate HoldsInt(v: Option<Value<bytes>>, n: Option<int>) {
    if n == None then v == None else v.Some? && v.value.Number? && v.value.n == n.value
  }

  /** Every setting of a resolver section, by the name a node asks for: absent where the section leaves it out. */
  ghost predicate HoldsSection(p: seq<Stmt<bytes>>, s: Section) {
    && Setting(p, Codes("PROFILE_ENABLED")) == Some(Flag(true))
    && Setting(p, Codes("PROFILE_BLOCK_MODE")) == (if s.blockMode == "" then None else Some(Text(Utf8(s.blockMode))))
    && HoldsList(Setting(p, Codes("PROFILE_SINKHOLE_V4")), s.sinkholeV4)
    && HoldsList(Setting(p, Codes("PROFILE_SINKHOLE_V6")), s.sinkholeV6)
    && HoldsList(Setting(p, Codes("PROFILE_ACL")), s.acl)
    && HoldsUpstreams(Setting(p, Codes("PROFILE_UPSTREAMS")), s.upstreams)
  }

  ghost predicate HoldsNumbers(p: seq<Stmt<bytes>>, s: Section) {
    && HoldsInt(Setting(p, Codes("PROFILE_ECS_V4")), s.ecsV4)
    && HoldsInt(Setting(p, Codes("PROFILE_ECS_V6")), s.ecsV6)
    && HoldsInt(Setting(p, Codes("PROFILE_MAX_QPS_PER_IP")), s.maxQps)
    && HoldsInt(Setting(p, Codes("PROFILE_TCP_MAX_CONNS")), s.maxConns)
    && HoldsInt(Setting(p, Codes("PROFILE_TCP_MAX_QUERIES")), s.maxQueries)
  }

  ghost predicate HoldsUpstreams(v: Option<Value<bytes>>, us: seq<Upstream>) {
    if us == [] then v == None else v.Some? && v.value.Table? && AreUpstreams(v.value.fields, us)
  }

  lemma ListSetting(xs: seq<string>, v: Option<Value<string>>)
    requires v == if xs == [] then None else Some(StringList(xs))
    ensures HoldsList(DenoteOption(v), xs)
  {
    hide IsList, Positionals;
    ListDenoted(xs);
  }

  /** The value under each name, before the strings become bytes. */
  lemma TextSettings(s: Section)
    ensures var p := SectionProgram(Some(s));
      && Setting(p, PROFILE_ENABLED) == Some(Flag(true))
      && Setting(p, BLOCK_MODE) == (if s.blockMode == "" then None else Some(Text(s.blockMode)))
      && Setting(p, SINKHOLE_V4) == (if s.sinkholeV4 == [] then None else Some(StringList(s.sinkholeV4)))
      && Setting(p, SINKHOLE_V6) == (if s.sinkholeV6 == [] then None else Some(StringList(s.sinkholeV6)))
      && Setting(p, ACL) == (if s.acl == [] then None else Some(StringList(s.acl)))
      && Setting(p, UPSTREAMS) ==
           (if s.upstreams == [] then None else Some(Table(Positionals(UpstreamValues(s.upstreams)))))
  {
    hide SectionProgram, TextProgram, Setting, StringList, Positionals, UpstreamValues, IntValue;
    NamesDiffer();
    TextSetting(s, PROFILE_ENABLED);
    TextSetting(s, BLOCK_MODE);
    TextSetting(s, SINKHOLE_V4);
    TextSetting(s, SINKHOLE_V6);
    TextSetting(s, ACL);
    TextSetting(s, UPSTREAMS);
    SectionSetting(s, PROFILE_ENABLED);
    SectionSetting(s, BLOCK_MODE);
    SectionSetting(s, SINKHOLE_V4);
    SectionSetting(s, SINKHOLE_V6);
    SectionSetting(s, ACL);
    SectionSetting(s, UPSTREAMS);
  }

  lemma NumberSettings(s: Section)
    ensures var p := SectionProgram(Some(s));
      && Setting(p, ECS_V4) == (if s.ecsV4.None? then None else Some(IntValue(s.ecsV4)))
      && Setting(p, ECS_V6) == (if s.ecsV6.None? then None else Some(IntValue(s.ecsV6)))
      && Setting(p, MAX_QPS) == (if s.maxQps.None? then None else Some(IntValue(s.maxQps)))
      && Setting(p, TCP_CONNS) == (if s.maxConns.None? then None else Some(IntValue(s.maxConns)))
      && Setting(p, TCP_QUERIES) == (if s.maxQueries.None? then None else Some(IntValue(s.maxQueries)))
  {
    hide SectionProgram, TextProgram, Setting, StringList, Positionals, UpstreamValues, IntValue;
    NamesDiffer();
    TextSetting(s, ECS_V4);
    TextSetting(s, ECS_V6);
    TextSetting(s, MAX_QPS);
    TextSetting(s, TCP_CONNS);
    TextSetting(s, TCP_QUERIES);
    SectionSetting(s, ECS_V4);
    SectionSetting(s, ECS_V6);
    SectionSetting(s, MAX_QPS);
    SectionSetting(s, TCP_CONNS);
    SectionSetting(s, TCP_QUERIES);
  }

  lemma TextsHold(s: Section)
    ensures HoldsSection(DenoteAll(SectionProgram(Some(s))), s)
  {
    hide SectionProgram, DenoteAll, Setting, Codes, StringList, Positionals, UpstreamValues, Utf8, HoldsList;
    hide AreUpstreams;
    var p := SectionProgram(Some(s));
    NamesAsText();
    TextSettings(s);
    SettingDenoted(p, PROFILE_ENABLED);
    SettingDenoted(p, BLOCK_MODE);
    SettingDenoted(p, SINKHOLE_V4);
    SettingDenoted(p, SINKHOLE_V6);
    SettingDenoted(p, ACL);
    SettingDenoted(p, UPSTREAMS);
    ListSetting(s.sinkholeV4, Setting(p, SINKHOLE_V4));
    ListSetting(s.sinkholeV6, Setting(p, SINKHOLE_V6));
    ListSetting(s.acl, Setting(p, ACL));
    UpstreamsDenoted(s.upstreams);
  }

  lemma NumbersHold(s: Section)
    requires NoNegative(s)
    ensures HoldsNumbers(DenoteAll(SectionProgram(Some(s))), s)
  {
    hide SectionProgram, DenoteAll, Setting, Codes;
    var p := SectionProgram(Some(s));
    NumberNamesAsText();
    NumberSettings(s);
    SettingDenoted(p, ECS_V4);
    SettingDenoted(p, ECS_V6);
    SettingDenoted(p, MAX_QPS);
    SettingDenoted(p, TCP_CONNS);
    SettingDenoted(p, TCP_QUERIES);
  }

  /**
   * What a node finds in the file of a valid section, by name: each setting the section gives, with its
   * value, and no other; the file of a profile without one only says so.
   */
  lemma SettingsFound(net: Net, d: Option<Section>)
    requires d.Some? ==> ValidSection(net, d.value)
    ensures var p := ParseText(Heading(SECTION_HEADING) + PrintAll(SectionProgram(d)));
            && p.Some?
            && (d.None? ==> p.value == [Set(Codes("PROFILE_ENABLED"), Flag(false))])
            && (d.Some? ==> HoldsSection(p.value, d.value) && HoldsNumbers(p.value, d.value))
  {
    hide ParseText, PrintAll, HoldsSection, HoldsNumbers, ValidSection, Codes;
    SectionRoundTrip(d);
    if d.Some? {
      RangesValid(net, d.value);
      TextsHold(d.value);
      NumbersHold(d.value);
    } else {
      NamesAsText();
    }
  }

  // ---------------------------------------------------------------- rules

  /** The call a rule becomes: its function and its arguments, by the kind of the rule. */
  ghost predicate IsCall(s: Stmt<bytes>, r: Rule) {
    && s.Call? && r.kind in {"ip_set", "cname", "alias"}
    && (r.kind == "ip_set" ==> s.name == Codes("smartdns_ip_set") && IsList(s.args, [r.name, r.file]))
    && (r.kind == "cname" ==> s.name == Codes("smartdns_cname") && IsList(s.args, [r.pattern, r.target]))
    && (r.kind == "alias" ==> s.name == Codes("smartdns_ip_rules_alias") && IsAlias(s.args, r))
  }

  /** The set, the list of targets, and the set to leave out, if there is one. */
  ghost predicate IsAlias(fs: Fields<bytes>, r: Rule) {
    && fs.Cons? && fs.name == [] && fs.value == Text(Utf8(r.ipSet))
    && fs.rest.Cons? && fs.rest.name == [] && fs.rest.value.Table? && IsList(fs.rest.value.fields, r.targets)
    && if r.exclude == "" then fs.rest.rest.Nil? else IsList(fs.rest.rest, [r.exclude])
  }

  lemma SwitchText()
    ensures ENABLED == Codes("SMARTDIST_ENABLED")
  {
  }

  lemma IpSetText()
    ensures IP_SET == Codes("smartdns_ip_set")
  {
  }

  lemma CnameText()
    ensures CNAME == Codes("smartdns_cname")
  {
  }

  lemma AliasText()
    ensures ALIAS == Codes("smartdns_ip_rules_alias")
  {
  }

  /** The names of the switch and of the rules' functions as text. */
  lemma RuleNamesAsText()
    ensures ENABLED == Codes("SMARTDIST_ENABLED")
    ensures IP_SET == Codes("smartdns_ip_set")
    ensures CNAME == Codes("smartdns_cname")
    ensures ALIAS == Codes("smartdns_ip_rules_alias")
  {
    hide Codes;
    SwitchText();
    IpSetText();
    CnameText();
    AliasText();
  }

  lemma AliasDenoted(r: Rule)
    requires r.kind == "alias"
    ensures IsAlias(DenoteFields(Positionals(Arguments(r))), r)
  {
    hide Utf8, IsList;
    var list := Table(Positionals(Texts(r.targets)));
    ListDenoted(r.targets);
    if r.exclude == "" {
      TwoPositionals(Text(r.ipSet), list);
      assert Arguments(r) == [Text(r.ipSet), list];
      TwoDenoted(Text(r.ipSet), list, Nil);
    } else {
      var last: seq<Value<string>> := [Text(r.exclude)];
      ListDenoted([r.exclude]);
      assert Texts([r.exclude]) == last;
      assert Arguments(r) == [Text(r.ipSet), list] + last;
      ThreePositionals(Text(r.ipSet), list, Text(r.exclude));
      assert Arguments(r) == [Text(r.ipSet), list, Text(r.exclude)];
      TwoDenoted(Text(r.ipSet), list, Positionals(last));
    }
  }

  lemma TwoDenoted(a: Value<string>, b: Value<string>, rest: Fields<string>)
    ensures DenoteFields(Cons([], a, Cons([], b, rest))) == Cons([], Denote(a), Cons([], Denote(b), DenoteFields(rest)))
  {
    hide Denote;
    assert DenoteFields(Cons([], b, rest)) == Cons([], Denote(b), DenoteFields(rest));
  }

  lemma TwoPositionals(a: Value<string>, b: Value<string>)
    ensures Positionals([a, b]) == Cons([], a, Cons([], b, Nil))
  {
    assert [a, b][1..] == [b] && [b][1..] == [];
    assert Positionals([b]) == Cons([], b, Nil);
  }

  lemma ThreePositionals(a: Value<string>, b: Value<string>, c: Value<string>)
    ensures Positionals([a, b, c]) == Cons([], a, Cons([], b, Positionals([c])))
  {
    assert [a, b, c][1..] == [b, c] && [b, c][1..] == [c];
    assert Positionals([b, c]) == Cons([], b, Positionals([c]));
  }

  lemma RuleCalls(r: Rule)
    requires KnownKind(r)
    ensures IsCall(DenoteStmt(Call(FunctionOf(r), Positionals(Arguments(r)))), r)
  {
    hide Utf8, IsList, IsAlias, Positionals, Texts, Codes;
    RuleNamesAsText();
    ListDenoted([r.name, r.file]);
    ListDenoted([r.pattern, r.target]);
    if r.kind == "alias" {
      AliasDenoted(r);
    }
  }

  /** What a node finds in the file of a profile's rules: the switch, then the call of each rule in order. */
  lemma RulesFound(enabled: bool, rules: seq<Rule>)
    requires forall i :: 0 <= i < |rules| ==> KnownKind(rules[i])
    ensures var p := ParseText(Heading(RULES_HEADING) + PrintAll(RulesProgram(enabled, rules)));
            && p.Some? && |p.value| == |rules| + 1 && p.value[0] == Set(Codes("SMARTDIST_ENABLED"), Flag(enabled))
            && forall i :: 0 <= i < |rules| ==> IsCall(p.value[i + 1], rules[i])
  {
    hide ParseText, PrintAll, IsCall, KnownKind, Codes, Arguments, FunctionOf, Positionals;
    RulesRoundTrip(enabled, rules);
    RuleNamesAsText();
    var p := RulesProgram(enabled, rules);
    forall i | 0 <= i < |rules| ensures IsCall(DenoteStmt(p[i + 1]), rules[i]) {
      RuleCalls(rules[i]);
    }
  }
}
