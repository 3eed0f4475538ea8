/** Values and statements of generated Lua files: their text, and the parse of that text. */
module LuaValues {
  import opened Basics
  import opened Bytes
  import opened LuaText
  import opened LuaTokens

  /** A value; S is the type of its strings: characters where it is written, bytes where it is read. */
  datatype Value<S> = Text(s: S) | Number(n: nat) | Flag(b: bool) | Table(fields: Fields<S>)

  /** The fields of a table or the arguments of a call; a positional one has an empty name. */
  datatype Fields<S> = Nil | Cons(name: bytes, value: Value<S>, rest: Fields<S>)

  datatype Stmt<S> = Set(name: bytes, value: Value<S>) | Call(name: bytes, args: Fields<S>)

  const TRUE: bytes := [116, 114, 117, 101]
  const FALSE: bytes := [102, 97, 108, 115, 101]
  const OPEN: byte := 123
  const CLOSE: byte := 125
  const LEFT: byte := 40
  const RIGHT: byte := 41
  const COMMA: byte := 44
  const EQUAL: byte := 61
  const SPACE: byte := 32
  const NEWLINE: byte := 10

  // ---------------------------------------------------------------- text

  function PrintFlag(b: bool): bytes {
    if b then TRUE else FALSE
  }

  function Print(v: Value<string>): bytes
    decreases v, 0
  {
    match v
    case Text(s) => Quoted(s)
    case Number(n) => Decimal(n)
    case Flag(b) => PrintFlag(b)
    case Table(fs) => [OPEN] + PrintFields(fs) + [CLOSE]
  }

  function PrintField(name: bytes, v: Value<string>): bytes
    decreases v, 1
  {
    (if name == [] then [] else name + [EQUAL]) + Print(v)
  }

  function PrintFields(fs: Fields<string>): bytes {
    match fs
    case Nil => []
    case Cons(n, v, Nil) => PrintField(n, v)
    case Cons(n, v, rest) => PrintField(n, v) + [COMMA, SPACE] + PrintFields(rest)
  }

  function PrintStmt(s: Stmt<string>): bytes {
    match s
    case Set(n, v) => n + [SPACE, EQUAL, SPACE] + Print(v) + [NEWLINE]
    case Call(n, args) => n + [LEFT] + PrintFields(args) + [RIGHT, NEWLINE]
  }

  function PrintAll(p: seq<Stmt<string>>): bytes {
    if p == [] then [] else PrintAll(p[..|p| - 1]) + PrintStmt(p[|p| - 1])
  }

  // ---------------------------------------------------------------- meaning and tokens

  /** The value a reader gets: its strings are bytes. */
  function Denote(v: Value<string>): Value<bytes> {
    match v
    case Text(s) => Text(Utf8(s))
    case Number(n) => Number(n)
    case Flag(b) => Flag(b)
    case Table(fs) => Table(DenoteFields(fs))
  }

  function DenoteFields(fs: Fields<string>): Fields<bytes> {
    match fs
    case Nil => Nil
    case Cons(n, v, rest) => Cons(n, Denote(v), DenoteFields(rest))
  }

  function DenoteStmt(s: Stmt<string>): Stmt<bytes> {
    match s
    case Set(n, v) => Set(n, Denote(v))
    case Call(n, args) => Call(n, DenoteFields(args))
  }

  function TokensOf(v: Value<bytes>): seq<Token> {
    match v
    case Text(s) => [Str(s)]
    case Number(n) => [Num(n)]
    case Flag(b) => [Name(PrintFlag(b))]
    case Table(fs) => [Sym(OPEN)] + FieldTokens(fs) + [Sym(CLOSE)]
  }

  function NameTokens(name: bytes): seq<Token> {
    if name == [] then [] else [Name(name), Sym(EQUAL)]
  }

  function FieldTokens(fs: Fields<bytes>): seq<Token> {
    match fs
    case Nil => []
    case Cons(n, v, Nil) => NameTokens(n) + TokensOf(v)
    case Cons(n, v, rest) => NameTokens(n) + TokensOf(v) + [Sym(COMMA)] + FieldTokens(rest)
  }

  function StmtTokens(s: Stmt<bytes>): seq<Token> {
    match s
    case Set(n, v) => [Name(n), Sym(EQUAL)] + TokensOf(v)
    case Call(n, args) => [Name(n), Sym(LEFT)] + FieldTokens(args) + [Sym(RIGHT)]
  }

  /** Every field name is empty or a name. */
  predicate Named(v: Value<string>) {
    v.Table? ==> NamedFields(v.fields)
  }

  predicate NamedFields(fs: Fields<string>) {
    fs.Cons? ==> (fs.name == [] || IsName(fs.name)) && Named(fs.value) && NamedFields(fs.rest)
  }

  /** No field has a name: arguments of a call. */
  predicate Positional<S>(fs: Fields<S>) {
    fs.Cons? ==> fs.name == [] && Positional(fs.rest)
  }

  // ---------------------------------------------------------------- the parser

  datatype Parsed<T> = Parsed(value: T, rest: seq<Token>)

  function ParseValue(ts: seq<Token>): (r: Option<Parsed<Value<bytes>>>)
    ensures r.Some? ==> |r.value.rest| < |ts|
    decreases |ts|, 0
  {
    if ts == [] then None
    else
      match ts[0]
      case Str(s) => Some(Parsed(Text(s), ts[1..]))
      case Num(n) => Some(Parsed(Number(n), ts[1..]))
      case Name(n) =>
        if n == TRUE then Some(Parsed(Flag(true), ts[1..]))
        else if n == FALSE then Some(Parsed(Flag(false), ts[1..]))
        else None
      case Sym(b) =>
        if b != OPEN then None
        else
          var fs := ParseFields(ts[1..], true);
          if fs.None? then None else Some(Parsed(Table(fs.value.value), fs.value.rest))
  }

  /** Fields up to their closing bracket: of a table, with names and a last comma allowed, or of a call. */
  function ParseFields(ts: seq<Token>, table: bool): (r: Option<Parsed<Fields<bytes>>>)
    ensures r.Some? ==> |r.value.rest| < |ts|
    decreases |ts|, 1
  {
    var close := Sym(if table then CLOSE else RIGHT);
    if ts == [] then None
    else if ts[0] == close then Some(Parsed(Nil, ts[1..]))
    else
      var named := table && |ts| >= 2 && ts[0].Name? && ts[1] == Sym(EQUAL);
      var v := ParseValue(if named then ts[2..] else ts);
      if v.None? || v.value.rest == [] then None
      else
        var after := v.value.rest;
        var name := if named then ts[0].name else [];
        if after[0] == close then Some(Parsed(Cons(name, v.value.value, Nil), after[1..]))
        else if after[0] != Sym(COMMA) then None
        else
          var more := ParseFields(after[1..], table);
          if more.None? || (!table && more.value.value.Nil?) then None
          else Some(Parsed(Cons(name, v.value.value, more.value.value), more.value.rest))
  }

  function ParseStmt(ts: seq<Token>): (r: Option<Parsed<Stmt<bytes>>>)
    ensures r.Some? ==> |r.value.rest| < |ts|
  {
    if |ts| < 2 || !ts[0].Name? then None
    else if ts[1] == Sym(EQUAL) then
      var v := ParseValue(ts[2..]);
      if v.None? then None else Some(Parsed(Set(ts[0].name, v.value.value), v.value.rest))
    else if ts[1] == Sym(LEFT) then
      var args := ParseFields(ts[2..], false);
      if args.None? then None else Some(Parsed(Call(ts[0].name, args.value.value), args.value.rest))
    else None
  }

  /** A text as a list of statements. */
  function ParseStmts(ts: seq<Token>): Option<seq<Stmt<bytes>>>
    decreases |ts|
  {
    if ts == [] then Some([])
    else
      var s := ParseStmt(ts);
      if s.None? then None
      else
        var more := ParseStmts(s.value.rest);
        if more.None? then None else Some([s.value.value] + more.value)
  }

  function ParseText(bs: bytes): Option<seq<Stmt<bytes>>> {
    var ts := Tokens(bs);
    if ts.None? then None else ParseStmts(ts.value)
  }

  // ---------------------------------------------------------------- tokens of printed values

  lemma FlagToken(b: bool, rest: bytes)
    requires Delimited(rest)
    ensures Tokens(PrintFlag(b) + rest) == Prefix([Name(PrintFlag(b))], Tokens(rest))
  {
    hide Tokens, Prefix, Delimited;
    NameToken(PrintFlag(b), rest);
  }

  lemma {:induction false} ValueTokens(v: Value<string>, rest: bytes)
    requires Named(v) && Delimited(rest)
    ensures Tokens(Print(v) + rest) == Prefix(TokensOf(Denote(v)), Tokens(rest))
    decreases v, 1
  {
    hide Tokens, Prefix, Quoted, Decimal, Utf8, PrintFlag;
    match v
    case Text(s) => StringToken(s, rest);
    case Number(n) => NumberToken(n, rest);
    case Flag(b) => FlagToken(b, rest);
    case Table(fs) =>
      var r1 := [CLOSE] + rest;
      var r2 := PrintFields(fs) + r1;
      assert Print(v) + rest == [OPEN] + r2;
      SymbolToken(OPEN, r2);
      FieldsTokens(fs, r1);
      SymbolToken(CLOSE, rest);
      PrefixTwice(FieldTokens(DenoteFields(fs)), [Sym(CLOSE)], Tokens(rest));
      PrefixTwice([Sym(OPEN)], FieldTokens(DenoteFields(fs)) + [Sym(CLOSE)], Tokens(rest));
      assert [Sym(OPEN)] + (FieldTokens(DenoteFields(fs)) + [Sym(CLOSE)]) == TokensOf(Denote(v));
  }

  lemma {:induction false} FieldTokens1(name: bytes, v: Value<string>, rest: bytes)
    requires (name == [] || IsName(name)) && Named(v) && Delimited(rest)
    ensures Tokens(PrintField(name, v) + rest) == Prefix(NameTokens(name) + TokensOf(Denote(v)), Tokens(rest))
    decreases v, 2
  {
    hide Tokens, Prefix, Print, TokensOf, Denote, IsName;
    ValueTokens(v, rest);
    var ts := TokensOf(Denote(v));
    if name == [] {
      assert PrintField(name, v) + rest == Print(v) + rest;
      assert NameTokens(name) + ts == ts;
    } else {
      var r1 := Print(v) + rest;
      assert PrintField(name, v) + rest == name + ([EQUAL] + r1);
      NameToken(name, [EQUAL] + r1);
      SymbolToken(EQUAL, r1);
      PrefixTwice([Sym(EQUAL)], ts, Tokens(rest));
      PrefixTwice([Name(name)], [Sym(EQUAL)] + ts, Tokens(rest));
      assert [Name(name)] + ([Sym(EQUAL)] + ts) == NameTokens(name) + ts;
    }
  }

  lemma {:induction false} FieldsTokens(fs: Fields<string>, rest: bytes)
    requires NamedFields(fs) && Delimited(rest)
    ensures Tokens(PrintFields(fs) + rest) == Prefix(FieldTokens(DenoteFields(fs)), Tokens(rest))
    decreases fs, 0
  {
    hide Tokens, Prefix, PrintField, NameTokens, TokensOf, Denote, Named, IsName;
    match fs
    case Nil =>
      assert PrintFields(fs) + rest == rest;
      PrefixTwice([], [], Tokens(rest));
    case Cons(n, v, Nil) =>
      FieldTokens1(n, v, rest);
    case Cons(n, v, more) =>
      var r1 := PrintFields(more) + rest;
      var ts, last := NameTokens(n) + TokensOf(Denote(v)), FieldTokens(DenoteFields(more));
      assert PrintFields(fs) + rest == PrintField(n, v) + ([COMMA] + ([SPACE] + r1));
      FieldTokens1(n, v, [COMMA] + ([SPACE] + r1));
      SymbolToken(COMMA, [SPACE] + r1);
      SpaceToken(SPACE, r1);
      FieldsTokens(more, rest);
      PrefixTwice([Sym(COMMA)], last, Tokens(rest));
      PrefixTwice(ts, [Sym(COMMA)] + last, Tokens(rest));
      assert ts + ([Sym(COMMA)] + last) == FieldTokens(DenoteFields(fs));
  }

  // ---------------------------------------------------------------- parsing printed values

  lemma FirstToken(v: Value<bytes>)
    ensures TokensOf(v) != []
    ensures TokensOf(v)[0] != Sym(CLOSE) && TokensOf(v)[0] != Sym(RIGHT)
    ensures TokensOf(v)[0].Name? ==> |TokensOf(v)| == 1
  {
  }

  function Closing(table: bool): Token {
    Sym(if table then CLOSE else RIGHT)
  }

  lemma {:induction false} ValueParses(v: Value<bytes>, ts: seq<Token>)
    ensures ParseValue(TokensOf(v) + ts) == Some(Parsed(v, ts))
    decreases v, 1
  {
    hide FieldTokens, ParseFields;
    var all := TokensOf(v) + ts;
    if v.Table? {
      assert all[1..] == FieldTokens(v.fields) + [Closing(true)] + ts;
      FieldsParse(v.fields, true, ts);
    } else {
      assert all[1..] == ts;
    }
  }

  /** The first field of what is left to parse: whether it has a name, and its value. */
  lemma FieldSplits(name: bytes, v: Value<bytes>, after: seq<Token>, table: bool)
    requires after != [] && (after[0] == Sym(COMMA) || after[0] == Closing(table))
    requires !table ==> name == []
    ensures var ts := NameTokens(name) + TokensOf(v) + after;
      && ts[0] != Closing(table)
      && ((table && |ts| >= 2 && ts[0].Name? && ts[1] == Sym(EQUAL)) <==> name != [])
      && (name != [] ==> ts[0] == Name(name) && ts[2..] == TokensOf(v) + after)
      && (name == [] ==> ts == TokensOf(v) + after)
  {
    hide TokensOf;
    FirstToken(v);
    var ts := NameTokens(name) + TokensOf(v) + after;
    if name != [] {
      assert ts[2..] == TokensOf(v) + after;
    } else {
      assert ts == TokensOf(v) + after;
    }
  }

  lemma {:induction false} FieldsParse(fs: Fields<bytes>, table: bool, ts: seq<Token>)
    requires !table ==> Positional(fs)
    ensures ParseFields(FieldTokens(fs) + [Closing(table)] + ts, table) == Some(Parsed(fs, ts))
    decreases fs, 0
  {
    hide NameTokens, TokensOf, ParseValue;
    var all := FieldTokens(fs) + [Closing(table)] + ts;
    match fs
    case Nil =>
      assert all[1..] == ts;
    case Cons(n, v, Nil) =>
      var after := [Closing(table)] + ts;
      assert all == NameTokens(n) + TokensOf(v) + after;
      FieldSplits(n, v, after, table);
      ValueParses(v, after);
      assert after[1..] == ts;
    case Cons(n, v, more) =>
      var tail := FieldTokens(more) + [Closing(table)] + ts;
      var after := [Sym(COMMA)] + tail;
      assert all == NameTokens(n) + TokensOf(v) + after;
      FieldSplits(n, v, after, table);
      ValueParses(v, after);
      assert after[1..] == tail;
      FieldsParse(more, table, ts);
  }

  // ---------------------------------------------------------------- whole texts

  /** A statement with a name, and for a call arguments without names. */
  predicate WellNamed(s: Stmt<string>) {
    IsName(s.name) && (if s.Set? then Named(s.value) else NamedFields(s.args) && Positional(s.args))
  }

  lemma {:induction false} DenotePositional(fs: Fields<string>)
    requires Positional(fs)
    ensures Positional(DenoteFields(fs))
  {
    hide Denote;
    if fs.Cons? {
      DenotePositional(fs.rest);
    }
  }

  lemma StatementTokens(s: Stmt<string>, rest: bytes)
    requires WellNamed(s)
    ensures Tokens(PrintStmt(s) + rest) == Prefix(StmtTokens(DenoteStmt(s)), Tokens(rest))
  {
    hide Tokens, Prefix, Print, PrintFields, TokensOf, FieldTokens, Denote, DenoteFields, Named, NamedFields, IsName;
    var line := [NEWLINE] + rest;
    SpaceToken(NEWLINE, rest);
    match s
    case Set(n, v) =>
      var ts := TokensOf(Denote(v));
      var r1 := Print(v) + line;
      assert PrintStmt(s) + rest == n + ([SPACE] + ([EQUAL] + ([SPACE] + r1)));
      NameToken(n, [SPACE] + ([EQUAL] + ([SPACE] + r1)));
      SpaceToken(SPACE, [EQUAL] + ([SPACE] + r1));
      SymbolToken(EQUAL, [SPACE] + r1);
      SpaceToken(SPACE, r1);
      ValueTokens(v, line);
      PrefixTwice([Sym(EQUAL)], ts, Tokens(rest));
      PrefixTwice([Name(n)], [Sym(EQUAL)] + ts, Tokens(rest));
      assert [Name(n)] + ([Sym(EQUAL)] + ts) == StmtTokens(DenoteStmt(s));
    case Call(n, args) =>
      var ts := FieldTokens(DenoteFields(args));
      var r2 := [RIGHT] + line;
      var r1 := PrintFields(args) + r2;
      assert PrintStmt(s) + rest == n + ([LEFT] + r1);
      NameToken(n, [LEFT] + r1);
      SymbolToken(LEFT, r1);
      FieldsTokens(args, r2);
      SymbolToken(RIGHT, line);
      PrefixTwice(ts, [Sym(RIGHT)], Tokens(rest));
      PrefixTwice([Sym(LEFT)], ts + [Sym(RIGHT)], Tokens(rest));
      PrefixTwice([Name(n)], [Sym(LEFT)] + (ts + [Sym(RIGHT)]), Tokens(rest));
      assert [Name(n)] + ([Sym(LEFT)] + (ts + [Sym(RIGHT)])) == StmtTokens(DenoteStmt(s));
  }

  lemma StatementParses(s: Stmt<string>, ts: seq<Token>)
    requires WellNamed(s)
    ensures ParseStmt(StmtTokens(DenoteStmt(s)) + ts) == Some(Parsed(DenoteStmt(s), ts))
  {
    hide Denote, DenoteFields, TokensOf, FieldTokens, ParseValue, ParseFields, Named, NamedFields, IsName;
    var all := StmtTokens(DenoteStmt(s)) + ts;
    match s
    case Set(n, v) =>
      assert all[2..] == TokensOf(Denote(v)) + ts;
      ValueParses(Denote(v), ts);
    case Call(n, args) =>
      assert all[2..] == FieldTokens(DenoteFields(args)) + [Closing(false)] + ts;
      DenotePositional(args);
      FieldsParse(DenoteFields(args), false, ts);
  }

  function DenoteAll(p: seq<Stmt<string>>): (r: seq<Stmt<bytes>>)
    ensures |r| == |p| && forall i :: 0 <= i < |p| ==> r[i] == DenoteStmt(p[i])
  {
    seq(|p|, i requires 0 <= i < |p| => DenoteStmt(p[i]))
  }

  function AllTokens(p: seq<Stmt<bytes>>): seq<Token> {
    if p == [] then [] else StmtTokens(p[0]) + AllTokens(p[1..])
  }

  lemma PrintLast(p: seq<Stmt<string>>)
    ensures p == [] ==> PrintAll(p) == []
    ensures p != [] ==> PrintAll(p) == PrintAll(p[..|p| - 1]) + PrintStmt(p[|p| - 1])
  {
  }

  lemma {:induction false} PrintFirst(p: seq<Stmt<string>>)
    requires p != []
    ensures PrintAll(p) == PrintStmt(p[0]) + PrintAll(p[1..])
  {
    hide PrintStmt, PrintAll;
    var front, back := p[..|p| - 1], p[1..];
    PrintLast(p);
    PrintLast(back);
    if |p| == 1 {
      assert front == [] && back == [];
      PrintLast(front);
    } else {
      PrintFirst(front);
      assert back[..|back| - 1] == front[1..] && back[|back| - 1] == p[|p| - 1];
    }
  }

  lemma {:induction false} AllPrinted(p: seq<Stmt<string>>)
    requires forall i :: 0 <= i < |p| ==> WellNamed(p[i])
    ensures Tokens(PrintAll(p)) == Some(AllTokens(DenoteAll(p)))
    ensures ParseStmts(AllTokens(DenoteAll(p))) == Some(DenoteAll(p))
  {
    hide PrintStmt, StmtTokens, DenoteStmt, ParseStmt, WellNamed;
    if p != [] {
      AllPrinted(p[1..]);
      PrintFirst(p);
      StatementTokens(p[0], PrintAll(p[1..]));
      assert DenoteAll(p)[1..] == DenoteAll(p[1..]);
      StatementParses(p[0], AllTokens(DenoteAll(p[1..])));
      hide PrintAll, Tokens;
      assert [DenoteStmt(p[0])] + DenoteAll(p[1..]) == DenoteAll(p);
    }
  }

  /** A printed list of statements, after a comment line, parses to those statements. */
  lemma PrintParses(line: bytes, p: seq<Stmt<string>>)
    requires 10 !in line && line != [] && line[0] != '[' as int
    requires forall i :: 0 <= i < |p| ==> WellNamed(p[i])
    ensures ParseText([DASH, DASH] + line + [10] + PrintAll(p)) == Some(DenoteAll(p))
  {
    hide Tokens, PrintAll, ParseStmts, AllTokens, DenoteAll, WellNamed;
    CommentToken(line, PrintAll(p));
    AllPrinted(p);
  }
}
