/** Text as the sources treat it: sequences of ASCII characters. */
module Text {
  type ascii = c: char | (c as int) < 128 witness 'a'
  type text = seq<ascii>

  function LowerChar(c: ascii): ascii {
    if 'A' <= c <= 'Z' then ((c as int) + 32) as char else c
  }

  function ToLower(s: text): (r: text)
    ensures |r| == |s|
    ensures forall i :: 0 <= i < |s| ==> r[i] == LowerChar(s[i])
  {
    seq(|s|, i requires 0 <= i < |s| => LowerChar(s[i]))
  }

  predicate IsSpace(c: ascii) {
    c == ' ' || c == '\t' || c == '\n' || c == '\r' || c as int == 11 || c as int == 12
  }

  /** Removes every leading and trailing character of the given kind. */
  function TrimLeft(s: text, drop: ascii -> bool): (r: text) {
    if s != [] && drop(s[0]) then TrimLeft(s[1..], drop) else s
  }

  function TrimRight(s: text, drop: ascii -> bool): (r: text) {
    if s != [] && drop(s[|s| - 1]) then TrimRight(s[..|s| - 1], drop) else s
  }

  function TrimSpace(s: text): text {
    TrimRight(TrimLeft(s, IsSpace), IsSpace)
  }

  predicate HasSuffix(s: text, suffix: text) {
    |suffix| <= |s| && s[|s| - |suffix|..] == suffix
  }

  function TrimSuffix(s: text, suffix: text): (r: text) {
    if HasSuffix(s, suffix) then s[..|s| - |suffix|] else s
  }

  /** Puts a character in front of the first piece. */
  function Glue(c: ascii, parts: seq<text>): (r: seq<text>)
    requires parts != []
    ensures r != []
  {
    [[c] + parts[0]] + parts[1..]
  }

  function Split(s: text, sep: ascii): (parts: seq<text>)
    ensures |parts| >= 1
  {
    if s == [] then [[]]
    else
      var rest := Split(s[1..], sep);
      if s[0] == sep then [[]] + rest else Glue(s[0], rest)
  }

  function Join(parts: seq<text>, sep: ascii): text
    requires |parts| >= 1
  {
    if |parts| == 1 then parts[0] else parts[0] + [sep] + Join(parts[1..], sep)
  }

  ghost predicate Without(parts: seq<text>, sep: ascii) {
    forall i :: 0 <= i < |parts| ==> sep !in parts[i]
  }

  lemma {:induction false} JoinSplit(s: text, sep: ascii)
    ensures Join(Split(s, sep), sep) == s
    ensures Without(Split(s, sep), sep)
  {
    if s != [] {
      JoinSplit(s[1..], sep);
      var rest := Split(s[1..], sep);
      var parts := Split(s, sep);
      assert s == [s[0]] + s[1..];
      if s[0] == sep {
        assert parts[1..] == rest;
      } else if |rest| > 1 {
        assert parts[1..] == rest[1..];
      }
    }
  }

  lemma {:induction false} SplitPiece(p: text, sep: ascii)
    requires sep !in p
    ensures Split(p, sep) == [p]
  {
    if p != [] {
      assert sep !in p[1..];
      SplitPiece(p[1..], sep);
      assert [p[0]] + p[1..] == p;
    }
  }

  lemma {:induction false} SplitAppend(a: text, b: text, sep: ascii)
    ensures Split(a + [sep] + b, sep) == Split(a, sep) + Split(b, sep)
  {
    var s := a + [sep] + b;
    if a == [] {
      assert s[1..] == b;
    } else {
      assert s[1..] == a[1..] + [sep] + b;
      SplitAppend(a[1..], b, sep);
      var rest, tail := Split(a[1..], sep), Split(b, sep);
      GlueAppend(a[0], rest, tail);
      assert [[]] + (rest + tail) == [[]] + rest + tail;
    }
  }

  lemma GlueAppend(c: ascii, p: seq<text>, q: seq<text>)
    requires p != []
    ensures Glue(c, p + q) == Glue(c, p) + q
  {
    assert (p + q)[1..] == p[1..] + q;
  }

  lemma {:induction false} SplitJoin(parts: seq<text>, sep: ascii)
    requires |parts| >= 1 && Without(parts, sep)
    ensures Split(Join(parts, sep), sep) == parts
  {
    if |parts| == 1 {
      SplitPiece(parts[0], sep);
    } else {
      SplitJoin(parts[1..], sep);
      SplitPiece(parts[0], sep);
      SplitAppend(parts[0], Join(parts[1..], sep), sep);
    }
  }

  lemma LowerIdempotent(s: text)
    ensures ToLower(ToLower(s)) == ToLower(s)
  {
    forall i | 0 <= i < |s| ensures LowerChar(LowerChar(s[i])) == LowerChar(s[i]) {
    }
  }
}
