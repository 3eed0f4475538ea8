/** The Lua files a node loads for its profile, and what a Lua reader finds in them. */
module LuaProfile {
  import opened Basics
  import opened Bytes
  import opened LuaText
  import opened LuaTokens
  import opened LuaValues
  import opened ProfileParse

  function Positionals(vs: seq<Value<string>>): Fields<string> {
    if vs == [] then Nil else Cons([], vs[0], Positionals(vs[1..]))
  }

  function Texts(xs: seq<string>): (r: seq<Value<string>>)
    ensures |r| == |xs|
  {
    seq(|xs|, i requires 0 <= i < |xs| => Text(xs[i]))
  }

  function JoinBytes(parts: seq<bytes>): bytes {
    if parts == [] then [] else if |parts| == 1 then parts[0] else parts[0] + [COMMA, SPACE] + JoinBytes(parts[1..])
  }

  function Prints(vs: seq<Value<string>>): (r: seq<bytes>)
    ensures |r| == |vs|
  {
    seq(|vs|, i requires 0 <= i < |vs| => Print(vs[i]))
  }

  /** Joining printed values with commas prints them as positional fields. */
  lemma {:induction false} JoinPrints(vs: seq<Value<string>>)
    ensures JoinBytes(Prints(vs)) == PrintFields(Positionals(vs))
  {
    hide Print;
    if vs != [] {
      JoinPrints(vs[1..]);
      assert Prints(vs)[1..] == Prints(vs[1..]);
      assert PrintField([], vs[0]) == Print(vs[0]);
      if |vs| > 1 {
        assert Positionals(vs[1..]).Cons?;
      } else {
        assert Positionals(vs[1..]) == Nil;
      }
    }
  }

  /** A list of strings as a table. */
  method LuaStrList(xs: seq<string>) returns (b: bytes)
    ensures b == Print(Table(Positionals(Texts(xs))))
  {
    hide Quoted;
    var q: seq<bytes> := [];
    for i := 0 to |xs|
      invariant |q| == i && forall j :: 0 <= j < i ==> q[j] == Quoted(xs[j])
    {
      var one := LuaQuote(xs[i]);
      q := q + [one];
    }
    assert q == Prints(Texts(xs));
    JoinPrints(Texts(xs));
    b := [OPEN] + JoinBytes(q) + [CLOSE];
  }

  // ---------------------------------------------------------------- profile rules

  // SMARTDIST_ENABLED
  const ENABLED: bytes := [83, 77, 65, 82, 84, 68, 73, 83, 84, 95, 69, 78, 65, 66, 76, 69, 68]
  // smartdns_ip_set
  const IP_SET: bytes := [115, 109, 97, 114, 116, 100, 110, 115, 95, 105, 112, 95, 115, 101, 116]
  // smartdns_cname
  const CNAME: bytes := [115, 109, 97, 114, 116, 100, 110, 115, 95, 99, 110, 97, 109, 101]
  // smartdns_ip_rules_alias
  const ALIAS: bytes := [115, 109, 97, 114, 116, 100, 110, 115, 95, 105, 112, 95, 114, 117, 108, 101, 115, 95, 97,
                         108, 105, 97, 115]
  // SmartDist profile (auto-generated by panel agent, do not edit)
  const RULES_HEADING: bytes := [32, 83, 109, 97, 114, 116, 68, 105, 115, 116, 32, 112, 114, 111, 102, 105, 108, 101,
                                 32, 40, 97, 117, 116, 111, 45, 103, 101, 110, 101, 114, 97, 116] +
    [101, 100, 32, 98, 121, 32, 112, 97, 110, 101, 108, 32, 97, 103, 101, 110, 116, 44, 32, 100, 111, 32, 110, 111,
     116, 32, 101, 100, 105, 116, 41]

  predicate KnownKind(r: Rule) {
    r.kind == "ip_set" || r.kind == "cname" || r.kind == "alias"
  }

  function Arguments(r: Rule): seq<Value<string>>
    requires KnownKind(r)
  {
    if r.kind == "ip_set" then Texts([r.name, r.file])
    else if r.kind == "cname" then Texts([r.pattern, r.target])
    else
      [Text(r.ipSet), Table(Positionals(Texts(r.targets)))] + (if r.exclude != "" then [Text(r.exclude)] else [])
  }

  function FunctionOf(r: Rule): bytes
    requires KnownKind(r)
  {
    if r.kind == "ip_set" then IP_SET else if r.kind == "cname" then CNAME else ALIAS
  }

  /** One call for each rule, after the switch. */
  function RulesProgram(enabled: bool, rules: seq<Rule>): (p: seq<Stmt<string>>)
    requires forall i :: 0 <= i < |rules| ==> KnownKind(rules[i])
    ensures |p| == |rules| + 1
  {
    [Set(ENABLED, Flag(enabled))] +
    seq(|rules|, i requires 0 <= i < |rules| => Call(FunctionOf(rules[i]), Positionals(Arguments(rules[i]))))
  }

  function Heading(line: bytes): bytes {
    [DASH, DASH] + line + [NEWLINE]
  }

  /** The arguments printed one after another. */
  lemma TwoFields(a: Value<string>, b: Value<string>)
    ensures PrintFields(Positionals([a, b])) == Print(a) + [COMMA, SPACE] + Print(b)
  {
    hide Print;
    assert [a, b][1..] == [b] && [b][1..] == [];
    assert Positionals([b]) == Cons([], b, Nil);
    assert PrintField([], a) == Print(a) && PrintField([], b) == Print(b);
  }

  lemma ThreeFields(a: Value<string>, b: Value<string>, c: Value<string>)
    ensures PrintFields(Positionals([a, b, c])) == Print(a) + [COMMA, SPACE] + Print(b) + [COMMA, SPACE] + Print(c)
  {
    hide Print;
    assert [a, b, c][1..] == [b, c];
    TwoFields(b, c);
    assert Positionals([b, c]).Cons?;
    assert PrintField([], a) == Print(a);
  }

  /** The text of one rule's call. */
  method RuleText(r: Rule) returns (b: bytes)
    requires KnownKind(r)
    ensures b == PrintStmt(Call(FunctionOf(r), Positionals(Arguments(r))))
  {
    hide Quoted, Positionals, PrintFields;
    if r.kind == "ip_set" {
      var x := LuaQuote(r.name);
      var y := LuaQuote(r.file);
      TwoFields(Text(r.name), Text(r.file));
      assert Arguments(r) == [Text(r.name), Text(r.file)];
      b := IP_SET + [LEFT] + (x + [COMMA, SPACE] + y) + [RIGHT, NEWLINE];
    } else if r.kind == "cname" {
      var x := LuaQuote(r.pattern);
      var y := LuaQuote(r.target);
      TwoFields(Text(r.pattern), Text(r.target));
      assert Arguments(r) == [Text(r.pattern), Text(r.target)];
      b := CNAME + [LEFT] + (x + [COMMA, SPACE] + y) + [RIGHT, NEWLINE];
    } else {
      var x := LuaQuote(r.ipSet);
      var ips := LuaStrList(r.targets);
      var list := Table(Positionals(Texts(r.targets)));
      if r.exclude != "" {
        var z := LuaQuote(r.exclude);
        ThreeFields(Text(r.ipSet), list, Text(r.exclude));
        assert Arguments(r) == [Text(r.ipSet), list, Text(r.exclude)];
        b := ALIAS + [LEFT] + (x + [COMMA, SPACE] + ips + [COMMA, SPACE] + z) + [RIGHT, NEWLINE];
      } else {
        TwoFields(Text(r.ipSet), list);
        assert Arguments(r) == [Text(r.ipSet), list];
        b := ALIAS + [LEFT] + (x + [COMMA, SPACE] + ips) + [RIGHT, NEWLINE];
      }
    }
  }

  /** The file for a list of rules; the place of the first rule of unknown type is the error. */
  method GenerateSmartDistLua(enabled: bool, rules: seq<Rule>) returns (r: Result<bytes, nat>)
    ensures r.Ok? <==> forall i :: 0 <= i < |rules| ==> KnownKind(rules[i])
    ensures r.Err? ==> r.error < |rules| && rules[r.error].kind !in {"ip_set", "cname", "alias"}
    ensures r.Ok? ==> r.value == Heading(RULES_HEADING) + PrintAll(RulesProgram(enabled, rules))
    ensures r.Err? ==> r.error < |rules| && !KnownKind(rules[r.error])
    ensures r.Err? ==> forall i :: 0 <= i < r.error ==> KnownKind(rules[i])
  {
    hide PrintStmt, Arguments, FunctionOf, KnownKind, PrintAll;
    var b := Heading(RULES_HEADING) + (ENABLED + [SPACE, EQUAL, SPACE] + PrintFlag(enabled) + [NEWLINE]);
    FirstStatement(enabled);
    for i := 0 to |rules|
      invariant forall j :: 0 <= j < i ==> KnownKind(rules[j])
      invariant b == Heading(RULES_HEADING) + PrintAll(RulesProgram(enabled, rules[..i]))
    {
      if !KnownKind(rules[i]) {
        KnownKinds(rules[i]);
        return Err(i);
      }
      var one := RuleText(rules[i]);
      b := b + one;
      var p := RulesProgram(enabled, rules[..i + 1]);
      PrintLast(p);
      assert p[..|p| - 1] == RulesProgram(enabled, rules[..i]);
    }
    assert rules[..|rules|] == rules;
    return Ok(b);
  }

  lemma KnownKinds(r: Rule)
    ensures KnownKind(r) <==> r.kind in {"ip_set", "cname", "alias"}
  {
  }

  lemma FirstStatement(enabled: bool)
    ensures PrintAll(RulesProgram(enabled, [])) == ENABLED + [SPACE, EQUAL, SPACE] + PrintFlag(enabled) + [NEWLINE]
  {
    hide PrintFlag, PrintAll;
    var p := RulesProgram(enabled, []);
    assert p[..0] == [];
    PrintLast(p);
    PrintLast(p[..0]);
  }

  lemma {:induction false} PositionalsNamed(vs: seq<Value<string>>)
    requires forall i :: 0 <= i < |vs| ==> Named(vs[i])
    ensures NamedFields(Positionals(vs)) && Positional(Positionals(vs))
  {
    hide Named;
    if vs != [] {
      PositionalsNamed(vs[1..]);
    }
  }

  lemma TextsNamed(xs: seq<string>)
    ensures Named(Table(Positionals(Texts(xs))))
    ensures forall i :: 0 <= i < |xs| ==> Named(Texts(xs)[i])
  {
    PositionalsNamed(Texts(xs));
  }

  lemma ArgumentsNamed(r: Rule)
    requires KnownKind(r)
    ensures NamedFields(Positionals(Arguments(r))) && Positional(Positionals(Arguments(r)))
  {
    hide Positionals, NamedFields;
    TextsNamed([r.name, r.file]);
    TextsNamed([r.pattern, r.target]);
    TextsNamed(r.targets);
    PositionalsNamed(Arguments(r));
  }

  lemma RuleNames()
    ensures IsName(ENABLED) && IsName(IP_SET)
    ensures IsName(CNAME) && IsName(ALIAS)
  {
  }

  lemma RulesHeading()
    ensures 10 !in RULES_HEADING && RULES_HEADING != [] && RULES_HEADING[0] == SPACE
  {
  }

  /** Whatever strings a profile holds, its file parses to the switch and one call for each rule, in order. */
  lemma RulesRoundTrip(enabled: bool, rules: seq<Rule>)
    requires forall i :: 0 <= i < |rules| ==> KnownKind(rules[i])
    ensures ParseText(Heading(RULES_HEADING) + PrintAll(RulesProgram(enabled, rules))) ==
              Some(DenoteAll(RulesProgram(enabled, rules)))
  {
    hide Arguments, Positionals, IsName, ParseText, PrintAll, DenoteAll, KnownKind;
    var p := RulesProgram(enabled, rules);
    RuleNames();
    forall i | 0 <= i < |p| ensures WellNamed(p[i]) {
      if i > 0 {
        ArgumentsNamed(rules[i - 1]);
      }
    }
    RulesHeading();
    PrintParses(RULES_HEADING, p);
  }

  /** A printed table is its own delimiter: any text may follow it, or none. */
  lemma TableTokens(fs: Fields<string>, rest: bytes)
    requires NamedFields(fs)
    ensures Tokens(Print(Table(fs)) + rest) == Prefix(TokensOf(Denote(Table(fs))), Tokens(rest))
  {
    hide Tokens, Prefix, PrintFields, FieldTokens, DenoteFields, NamedFields;
    var r1 := [CLOSE] + rest;
    var r2 := PrintFields(fs) + r1;
    var ts := FieldTokens(DenoteFields(fs));
    assert Print(Table(fs)) + rest == [OPEN] + r2;
    SymbolToken(OPEN, r2);
    FieldsTokens(fs, r1);
    SymbolToken(CLOSE, rest);
    PrefixTwice(ts, [Sym(CLOSE)], Tokens(rest));
    PrefixTwice([Sym(OPEN)], ts + [Sym(CLOSE)], Tokens(rest));
    assert [Sym(OPEN)] + (ts + [Sym(CLOSE)]) == TokensOf(Denote(Table(fs)));
  }

  /** A printed list of strings, whatever readable text follows it, parses back to those strings and leaves the rest. */
  lemma ListRoundTrip(xs: seq<string>, rest: bytes)
    requires Tokens(rest).Some?
    ensures var list := Table(Positionals(Texts(xs)));
            var ts := Tokens(Print(list) + rest);
            ts.Some? && ParseValue(ts.value) == Some(LuaValues.Parsed.Parsed(Denote(list), Tokens(rest).value))
  {
    hide Tokens, Print, TokensOf, Denote, ParseValue, NamedFields, Positionals, Texts;
    var list := Table(Positionals(Texts(xs)));
    TextsNamed(xs);
    TableTokens(Positionals(Texts(xs)), rest);
    ValueParses(Denote(list), Tokens(rest).value);
  }

  /** In particular the text of the list alone parses to the list, with nothing left. */
  lemma ListAlone(xs: seq<string>)
    ensures var list := Table(Positionals(Texts(xs)));
            var ts := Tokens(Print(list));
            ts.Some? && ParseValue(ts.value) == Some(LuaValues.Parsed.Parsed(Denote(list), []))
  {
    hide Print, TokensOf, Denote, ParseValue, Positionals, Texts;
    ListRoundTrip(xs, []);
    assert Print(Table(Positionals(Texts(xs)))) + [] == Print(Table(Positionals(Texts(xs))));
  }
}
