/** Tokens of a Lua 5.1 text, as far as generated files use them. */
module LuaTokens {
  import opened Basics
  import opened Bytes
  import opened LuaText

  datatype Token = Name(name: bytes) | Str(text: bytes) | Num(n: nat) | Sym(b: byte)

  predicate NameStart(b: byte) {
    65 <= b <= 90 || 97 <= b <= 122 || b == 95
  }

  predicate NameChar(b: byte) {
    NameStart(b) || IsDigit(b)
  }

  predicate IsSpaceByte(b: byte) {
    b == 32 || 9 <= b <= 13
  }

  predicate IsSymbol(b: byte) {
    b == '(' as int || b == ')' as int || b == '{' as int || b == '}' as int || b == ',' as int || b == '=' as int
  }

  const DASH: byte := 45
  const DOT: byte := 46

  /** Length of the longest prefix of name characters. */
  function NameRun(bs: bytes): (n: nat)
    ensures n <= |bs|
    ensures forall i :: 0 <= i < n ==> NameChar(bs[i])
    ensures n < |bs| ==> !NameChar(bs[n])
  {
    if bs == [] || !NameChar(bs[0]) then 0 else 1 + NameRun(bs[1..])
  }

  /** The text after the first line end. */
  function AfterLine(bs: bytes): (r: bytes)
    ensures |r| <= |bs|
  {
    if bs == [] then [] else if bs[0] == 10 then bs[1..] else AfterLine(bs[1..])
  }

  function Prefix(ts: seq<Token>, r: Option<seq<Token>>): Option<seq<Token>> {
    if r.None? then None else Some(ts + r.value)
  }

  /** The tokens of a text; None where it is not Lua, or uses what generated files do not. */
  function Tokens(bs: bytes): Option<seq<Token>>
    decreases |bs|
  {
    if bs == [] then Some([])
    else if IsSpaceByte(bs[0]) then Tokens(bs[1..])
    else if IsSymbol(bs[0]) then Prefix([Sym(bs[0])], Tokens(bs[1..]))
    else if bs[0] == QUOTE then
      var r := StringBody(bs[1..]);
      if r.None? then None else Prefix([Str(r.value.value)], Tokens(r.value.rest))
    else if NameStart(bs[0]) then
      var n := NameRun(bs);
      Prefix([Name(bs[..n])], Tokens(bs[n..]))
    else if IsDigit(bs[0]) then
      var n := NameRun(bs);
      if (n < |bs| && bs[n] == DOT) || exists i :: 0 <= i < n && !IsDigit(bs[i]) then None
      else Prefix([Num(DigitsValue(bs[..n]))], Tokens(bs[n..]))
    else if |bs| >= 2 && bs[0] == DASH && bs[1] == DASH && !(|bs| >= 3 && bs[2] == '[' as int)
    then Tokens(AfterLine(bs[2..]))
    else None
  }

  predicate IsName(n: bytes) {
    n != [] && NameStart(n[0]) && forall i :: 0 <= i < |n| ==> NameChar(n[i])
  }

  /** The text neither goes on a name or number nor is empty. */
  predicate Delimited(rest: bytes) {
    rest != [] && !NameChar(rest[0]) && rest[0] != DOT
  }

  lemma PrefixTwice(a: seq<Token>, b: seq<Token>, r: Option<seq<Token>>)
    ensures Prefix(a, Prefix(b, r)) == Prefix(a + b, r)
    ensures Prefix([], r) == r
  {
    if r.Some? {
      assert a + (b + r.value) == (a + b) + r.value;
      assert [] + r.value == r.value;
    }
  }

  lemma SpaceToken(b: byte, rest: bytes)
    requires IsSpaceByte(b)
    ensures Tokens([b] + rest) == Tokens(rest)
  {
    assert ([b] + rest)[1..] == rest;
  }

  lemma SymbolToken(b: byte, rest: bytes)
    requires IsSymbol(b)
    ensures Tokens([b] + rest) == Prefix([Sym(b)], Tokens(rest))
  {
    hide Prefix;
    assert ([b] + rest)[1..] == rest;
  }

  lemma StringToken(s: string, rest: bytes)
    ensures Tokens(Quoted(s) + rest) == Prefix([Str(Utf8(s))], Tokens(rest))
  {
    hide Prefix, QuotedChars, StringBody, Utf8;
    QuoteRoundTrip(s, rest);
  }

  lemma {:induction false} RunOf(n: bytes, rest: bytes)
    requires forall i :: 0 <= i < |n| ==> NameChar(n[i])
    requires rest != [] ==> !NameChar(rest[0])
    ensures NameRun(n + rest) == |n|
  {
    if n == [] {
      assert n + rest == rest;
    } else {
      assert (n + rest)[1..] == n[1..] + rest;
      RunOf(n[1..], rest);
    }
  }

  lemma NameToken(n: bytes, rest: bytes)
    requires IsName(n) && Delimited(rest)
    ensures Tokens(n + rest) == Prefix([Name(n)], Tokens(rest))
  {
    hide Prefix;
    RunOf(n, rest);
    var bs := n + rest;
    assert bs[0] == n[0];
    assert bs[..|n|] == n && bs[|n|..] == rest;
  }

  function Decimal(n: nat): (r: bytes)
    ensures r != [] && forall i :: 0 <= i < |r| ==> IsDigit(r[i])
  {
    if n < 10 then [48 + n] else Decimal(n / 10) + [48 + n % 10]
  }

  lemma {:induction false} DecimalValue(n: nat)
    ensures DigitsValue(Decimal(n)) == n
  {
    if n < 10 {
      assert Decimal(n)[..0] == [];
    } else {
      DecimalValue(n / 10);
      assert Decimal(n)[..|Decimal(n)| - 1] == Decimal(n / 10);
    }
  }

  lemma NumberToken(n: nat, rest: bytes)
    requires Delimited(rest)
    ensures Tokens(Decimal(n) + rest) == Prefix([Num(n)], Tokens(rest))
  {
    hide Prefix, Decimal, DigitsValue;
    var d := Decimal(n);
    DecimalValue(n);
    assert forall i :: 0 <= i < |d| ==> NameChar(d[i]);
    RunOf(d, rest);
    var bs := d + rest;
    assert bs[0] == d[0];
    assert bs[..|d|] == d && bs[|d|..] == rest;
    assert forall i :: 0 <= i < |d| ==> bs[i] == d[i];
  }

  lemma {:induction false} LineSkipped(line: bytes, rest: bytes)
    requires 10 !in line
    ensures AfterLine(line + [10] + rest) == rest
  {
    if line == [] {
      assert (line + [10] + rest)[1..] == rest;
    } else {
      assert (line + [10] + rest)[1..] == line[1..] + [10] + rest;
      LineSkipped(line[1..], rest);
    }
  }

  /** A comment line leaves no token. */
  lemma CommentToken(line: bytes, rest: bytes)
    requires 10 !in line && line != [] && line[0] != '[' as int
    ensures Tokens([DASH, DASH] + line + [10] + rest) == Tokens(rest)
  {
    var bs := [DASH, DASH] + line + [10] + rest;
    assert bs[2..] == line + [10] + rest;
    LineSkipped(line, rest);
  }
}
