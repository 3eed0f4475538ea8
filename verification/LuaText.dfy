/** String literals of generated Lua files, and how a Lua reader reads them back. */
module LuaText {
  import opened Basics
  import opened Bytes

  type bytes = seq<byte>

  /** The UTF-8 form of one character. */
  function Utf8Char(c: char): (r: bytes)
    ensures |r| >= 1
    ensures (c as int) < 128 ==> r == [c as int]
    ensures (c as int) >= 128 ==> forall i :: 0 <= i < |r| ==> r[i] >= 128
  {
    var n := c as int;
    if n < 0x80 then [n]
    else if n < 0x800 then [0xC0 + n / 64, 0x80 + n % 64]
    else if n < 0x10000 then [0xE0 + n / 4096, 0x80 + n / 64 % 64, 0x80 + n % 64]
    else [0xF0 + n / 262144, 0x80 + n / 4096 % 64, 0x80 + n / 64 % 64, 0x80 + n % 64]
  }

  function Utf8(s: string): bytes {
    if s == "" then [] else Utf8(s[..|s| - 1]) + Utf8Char(s[|s| - 1])
  }

  const QUOTE: byte := 34
  const BACKSLASH: byte := 92

  /** Three decimal digits after a backslash. */
  function Escaped(n: byte): bytes {
    [BACKSLASH, 48 + n / 100, 48 + n / 10 % 10, 48 + n % 10]
  }

  function QuotedChar(c: char): bytes {
    if c == '\\' then [BACKSLASH, BACKSLASH]
    else if c == '"' then [BACKSLASH, QUOTE]
    else if c == '\n' then [BACKSLASH, 'n' as int]
    else if c == '\r' then [BACKSLASH, 'r' as int]
    else if (c as int) < 32 || c as int == 127 then Escaped(c as int)
    else Utf8Char(c)
  }

  function QuotedChars(s: string): bytes {
    if s == "" then [] else QuotedChars(s[..|s| - 1]) + QuotedChar(s[|s| - 1])
  }

  function Quoted(s: string): bytes {
    [QUOTE] + QuotedChars(s) + [QUOTE]
  }

  lemma CharsNone(rest: bytes)
    ensures QuotedChars("") + rest == rest && QuotedChars("") == [] && Utf8("") == []
  {
  }

  lemma CharsLast(s: string)
    requires s != ""
    ensures Utf8(s) == Utf8(s[..|s| - 1]) + Utf8Char(s[|s| - 1])
    ensures QuotedChars(s) == QuotedChars(s[..|s| - 1]) + QuotedChar(s[|s| - 1])
  {
  }

  lemma OneMore(s: string, i: nat)
    requires i < |s|
    ensures [QUOTE] + QuotedChars(s[..i + 1]) == [QUOTE] + QuotedChars(s[..i]) + QuotedChar(s[i])
  {
    hide QuotedChars, QuotedChar;
    assert s[..i + 1][..i] == s[..i];
    CharsLast(s[..i + 1]);
  }

  method LuaQuote(s: string) returns (b: bytes)
    ensures b == Quoted(s)
  {
    hide Utf8Char, Escaped, QuotedChars;
    b := [QUOTE];
    CharsNone([]);
    assert s[..0] == "";
    for i := 0 to |s|
      invariant b == [QUOTE] + QuotedChars(s[..i])
    {
      OneMore(s, i);
      var c := s[i];
      if c == '\\' {
        b := b + [BACKSLASH, BACKSLASH];
      } else if c == '"' {
        b := b + [BACKSLASH, QUOTE];
      } else if c == '\n' {
        b := b + [BACKSLASH, 'n' as int];
      } else if c == '\r' {
        b := b + [BACKSLASH, 'r' as int];
      } else if (c as int) < 32 || c as int == 127 {
        b := b + Escaped(c as int);
      } else {
        b := b + Utf8Char(c);
      }
    }
    assert s[..|s|] == s;
    b := b + [QUOTE];
  }

  // ---------------------------------------------------------------- reading

  predicate IsDigit(b: byte) {
    48 <= b <= 57
  }

  /** What was read, and the text after it. */
  datatype Read = Read(value: bytes, rest: bytes)

  function Push(bs: bytes, r: Option<Read>): (p: Option<Read>)
    ensures p.Some? <==> r.Some?
    ensures p.Some? ==> p.value.rest == r.value.rest
  {
    if r.None? then None else Some(Read(bs + r.value.value, r.value.rest))
  }

  /** The byte an escape other than a number stands for; other characters stand for themselves. */
  function EscapeOf(e: byte): byte {
    if e == 'a' as int then 7
    else if e == 'b' as int then 8
    else if e == 'f' as int then 12
    else if e == 'n' as int then 10
    else if e == 'r' as int then 13
    else if e == 't' as int then 9
    else if e == 'v' as int then 11
    else e
  }

  /** How many digits, at most three, the text starts with. */
  function DigitRun(bs: bytes): (n: nat)
    ensures n <= 3 && n <= |bs|
    ensures forall i :: 0 <= i < n ==> IsDigit(bs[i])
    ensures n < 3 && n < |bs| ==> !IsDigit(bs[n])
  {
    if |bs| == 0 || !IsDigit(bs[0]) then 0
    else if |bs| == 1 || !IsDigit(bs[1]) then 1
    else if |bs| == 2 || !IsDigit(bs[2]) then 2
    else 3
  }

  function DigitsValue(bs: bytes): nat
    requires forall i :: 0 <= i < |bs| ==> IsDigit(bs[i])
  {
    if bs == [] then 0
    else
      assert IsDigit(bs[|bs| - 1]);
      10 * DigitsValue(bs[..|bs| - 1]) + (bs[|bs| - 1] as int - 48)
  }

  /** A quoted string of Lua 5.1 after its opening quote: the bytes it denotes and the text that follows. */
  function StringBody(bs: bytes): (r: Option<Read>)
    ensures r.Some? ==> |r.value.rest| < |bs|
    decreases |bs|
  {
    if bs == [] || bs[0] == 10 || bs[0] == 13 then None
    else if bs[0] == QUOTE then Some(Read([], bs[1..]))
    else if bs[0] != BACKSLASH then Push([bs[0]], StringBody(bs[1..]))
    else if |bs| == 1 then None
    else if IsDigit(bs[1]) then
      var n := DigitRun(bs[1..]);
      var v := DigitsValue(bs[1..][..n]);
      if v > 255 then None else Push([v], StringBody(bs[1 + n..]))
    else if bs[1] == 10 || bs[1] == 13 then
      var pair := |bs| > 2 && (bs[2] == 10 || bs[2] == 13) && bs[2] != bs[1];
      Push([10], StringBody(bs[if pair then 3 else 2..]))
    else Push([EscapeOf(bs[1])], StringBody(bs[2..]))
  }

  predicate Plain(b: byte) {
    b != 10 && b != 13 && b != QUOTE && b != BACKSLASH
  }

  lemma PushTwice(a: bytes, b: bytes, r: Option<Read>)
    ensures Push(a, Push(b, r)) == Push(a + b, r) && Push([], r) == r
  {
    if r.Some? {
      assert a + (b + r.value.value) == (a + b) + r.value.value;
      assert [] + r.value.value == r.value.value;
    }
  }

  lemma PlainByte(b: byte, rest: bytes)
    requires Plain(b)
    ensures StringBody([b] + rest) == Push([b], StringBody(rest))
  {
    assert ([b] + rest)[1..] == rest;
  }

  lemma {:induction false} PlainBytes(p: bytes, rest: bytes)
    requires forall i :: 0 <= i < |p| ==> Plain(p[i])
    ensures StringBody(p + rest) == Push(p, StringBody(rest))
  {
    hide StringBody, Push, Plain;
    if p == [] {
      assert p + rest == rest;
      PushTwice([], [], StringBody(rest));
    } else {
      assert p + rest == [p[0]] + (p[1..] + rest);
      PlainByte(p[0], p[1..] + rest);
      PlainBytes(p[1..], rest);
      assert [p[0]] + p[1..] == p;
      PushTwice([p[0]], p[1..], StringBody(rest));
    }
  }

  lemma PairRead(e: byte, rest: bytes)
    requires !IsDigit(e) && e != 10 && e != 13
    ensures StringBody([BACKSLASH, e] + rest) == Push([EscapeOf(e)], StringBody(rest))
  {
    assert ([BACKSLASH, e] + rest)[2..] == rest;
  }

  lemma ThreeDigits(a: byte, b: byte, c: byte)
    requires IsDigit(a) && IsDigit(b) && IsDigit(c)
    ensures DigitsValue([a, b, c]) == 100 * (a as int - 48) + 10 * (b as int - 48) + (c as int - 48)
  {
    assert [a, b, c][..2] == [a, b] && [a, b][..1] == [a] && [a][..0] == [];
    assert DigitsValue([a]) == a as int - 48;
    assert DigitsValue([a, b]) == 10 * DigitsValue([a]) + (b as int - 48);
  }

  lemma EscapeRead(a: byte, b: byte, c: byte, v: byte, rest: bytes)
    requires IsDigit(a) && IsDigit(b) && IsDigit(c) && DigitsValue([a, b, c]) == v
    ensures StringBody([BACKSLASH, a, b, c] + rest) == Push([v], StringBody(rest))
  {
    hide DigitsValue, Push;
    var bs := [BACKSLASH, a, b, c] + rest;
    assert bs[1..] == [a, b, c] + rest && ([a, b, c] + rest)[..3] == [a, b, c] && bs[4..] == rest;
  }

  /** Three digits are read back as one byte whatever follows, a digit included. */
  lemma EscapedRead(n: byte, rest: bytes)
    ensures StringBody(Escaped(n) + rest) == Push([n], StringBody(rest))
  {
    hide DigitsValue, Push, StringBody;
    var a, b, c := 48 + n / 100, 48 + n / 10 % 10, 48 + n % 10;
    ThreeDigits(a, b, c);
    EscapeRead(a, b, c, n, rest);
  }

  lemma CharRead(c: char, rest: bytes)
    ensures StringBody(QuotedChar(c) + rest) == Push(Utf8Char(c), StringBody(rest))
  {
    hide StringBody, Push, Escaped;
    if c == '\\' || c == '"' || c == '\n' || c == '\r' {
      PairRead(QuotedChar(c)[1], rest);
      assert QuotedChar(c) == [BACKSLASH, QuotedChar(c)[1]];
    } else if (c as int) < 32 || c as int == 127 {
      EscapedRead(c as int, rest);
    } else {
      PlainBytes(QuotedChar(c), rest);
    }
  }

  lemma {:induction false} CharsRead(s: string, rest: bytes)
    ensures StringBody(QuotedChars(s) + rest) == Push(Utf8(s), StringBody(rest))
  {
    hide StringBody, Push, QuotedChars, Utf8, QuotedChar, Utf8Char;
    if s == "" {
      CharsNone(rest);
      PushTwice([], [], StringBody(rest));
    } else {
      var front, c := s[..|s| - 1], s[|s| - 1];
      CharsLast(s);
      assert QuotedChars(s) + rest == QuotedChars(front) + (QuotedChar(c) + rest);
      CharsRead(front, QuotedChar(c) + rest);
      CharRead(c, rest);
      PushTwice(Utf8(front), Utf8Char(c), StringBody(rest));
    }
  }

  lemma QuoteRead(rest: bytes)
    ensures StringBody([QUOTE] + rest) == Some(Read([], rest))
  {
    assert ([QUOTE] + rest)[1..] == rest;
  }

  /** The literal of any string, followed by any text, reads back as its bytes and leaves that text alone. */
  lemma QuoteRoundTrip(s: string, rest: bytes)
    ensures var text := Quoted(s) + rest; text[0] == QUOTE && StringBody(text[1..]) == Some(Read(Utf8(s), rest))
  {
    hide StringBody, QuotedChars, Utf8;
    CharsRead(s, [QUOTE] + rest);
    QuoteRead(rest);
    var text := Quoted(s) + rest;
    assert text[1..] == QuotedChars(s) + ([QUOTE] + rest);
    assert Utf8(s) + [] == Utf8(s);
  }

  lemma TwoDigits(rest: bytes)
    ensures StringBody([BACKSLASH, 49, 50, QUOTE] + rest) == Push([12], StringBody([QUOTE] + rest))
  {
    hide Push;
    var bs := [BACKSLASH, 49, 50, QUOTE] + rest;
    var run := bs[1..];
    assert run == [49, 50, QUOTE] + rest && run[..2] == [49, 50] && bs[3..] == [QUOTE] + rest;
    assert DigitRun(run) == 2;
    assert [49, 50][..1] == [49] && [49][..0] == [];
    assert DigitsValue([49]) == 1;
  }

  /** With as few digits as it needs, an escape followed by a digit would read back as another byte. */
  lemma ShortEscapeSwallows(rest: bytes)
    ensures StringBody([BACKSLASH, 49, 50, QUOTE] + rest) == Some(Read([12], rest))
    ensures StringBody(Escaped(1) + [50, QUOTE] + rest) == Some(Read([1, 50], rest))
  {
    hide StringBody, Escaped;
    TwoDigits(rest);
    QuoteRead(rest);
    assert Escaped(1) + [50, QUOTE] + rest == Escaped(1) + ([50] + ([QUOTE] + rest));
    EscapedRead(1, [50] + ([QUOTE] + rest));
    PlainByte(50, [QUOTE] + rest);
    assert [12] + [] == [12] && [50] + [] == [50] && [1] + [50] == [1, 50];
  }

  /** The UTF-8 form of a character, by the ranges and the bits of its bytes (RFC 3629, section 3). */
  lemma Utf8Exactly(c: char)
    ensures var n, r := c as int, Utf8Char(c);
      && (n < 128 ==> r == [n])
      && (128 <= n < 2048 ==>
            |r| == 2 && 192 <= r[0] < 224 && Tail(r, 1) && n == (r[0] as int - 192) * 64 + (r[1] as int - 128))
      && (2048 <= n < 65536 ==>
            |r| == 3 && 224 <= r[0] < 240 && Tail(r, 1) && Tail(r, 2)
            && n == (r[0] as int - 224) * 4096 + (r[1] as int - 128) * 64 + (r[2] as int - 128))
      && (65536 <= n ==>
            |r| == 4 && 240 <= r[0] < 248 && Tail(r, 1) && Tail(r, 2) && Tail(r, 3)
            && n == (r[0] as int - 240) * 262144 + (r[1] as int - 128) * 4096 + (r[2] as int - 128) * 64
                    + (r[3] as int - 128))
  {
    var n := c as int;
    assert n / 64 / 64 == n / 4096 && n / 4096 / 64 == n / 262144;
  }

  predicate Tail(r: bytes, i: nat)
    requires i < |r|
  {
    128 <= r[i] < 192
  }
}
