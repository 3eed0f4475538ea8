/** Sets of text as strictly increasing sequences: what collecting and sorting them yields. */
module Sorting {
  import opened Text

  /** Byte-wise lexicographic order. */
  predicate Less(a: text, b: text) {
    b != [] && (a == [] || a[0] < b[0] || (a[0] == b[0] && Less(a[1..], b[1..])))
  }

  ghost predicate StrictlySorted(s: seq<text>) {
    forall i, j :: 0 <= i < j < |s| ==> Less(s[i], s[j])
  }

  function Elems(s: seq<text>): set<text> {
    set x | x in s
  }

  lemma ElemsAppend(s: seq<text>, x: text)
    ensures Elems(s + [x]) == Elems(s) + {x} && Elems([]) == {}
  {
  }

  lemma {:induction false} LessTransitive(a: text, b: text, c: text)
    requires Less(a, b) && Less(b, c)
    ensures Less(a, c)
  {
    if a != [] && a[0] == b[0] && b[0] == c[0] {
      LessTransitive(a[1..], b[1..], c[1..]);
    }
  }

  lemma {:induction false} LessTotal(a: text, b: text)
    ensures a == b || Less(a, b) || Less(b, a)
  {
    if a != [] && b != [] && a[0] == b[0] {
      LessTotal(a[1..], b[1..]);
      assert a == [a[0]] + a[1..] && b == [b[0]] + b[1..];
    }
  }

  lemma {:induction false} LessIrreflexive(a: text)
    ensures !Less(a, a)
  {
    if a != [] {
      LessIrreflexive(a[1..]);
    }
  }

  /** Two strictly sorted sequences with the same elements are the same sequence. */
  lemma {:induction false} SortedUnique(a: seq<text>, b: seq<text>)
    requires StrictlySorted(a) && StrictlySorted(b) && Elems(a) == Elems(b)
    ensures a == b
  {
    assert a != [] ==> a[0] in Elems(a);
    assert b != [] ==> b[0] in Elems(b);
    if a != [] {
      HeadsEqual(a, b);
      TailElems(a);
      TailElems(b);
      SortedUnique(a[1..], b[1..]);
    }
  }

  lemma HeadsEqual(a: seq<text>, b: seq<text>)
    requires StrictlySorted(a) && StrictlySorted(b) && Elems(a) == Elems(b) && a != [] && b != []
    ensures a[0] == b[0]
  {
    assert a[0] in Elems(a) && b[0] in Elems(b);
    var i :| 0 <= i < |b| && b[i] == a[0];
    var j :| 0 <= j < |a| && a[j] == b[0];
    if i > 0 && j > 0 {
      assert Less(b[0], a[0]) && Less(a[0], b[0]);
      LessTransitive(a[0], b[0], a[0]);
      LessIrreflexive(a[0]);
    }
  }

  lemma TailElems(a: seq<text>)
    requires StrictlySorted(a) && a != []
    ensures Elems(a[1..]) == Elems(a) - {a[0]}
  {
    forall x ensures x in a[1..] <==> x in a && x != a[0] {
      if x in a[1..] {
        var i :| 0 <= i < |a| - 1 && a[1..][i] == x;
        assert Less(a[0], a[i + 1]);
        LessIrreflexive(x);
      }
    }
  }

  /** Inserts an element in front of the first greater one. */
  function Insert(x: text, s: seq<text>): (r: seq<text>) {
    if s == [] || Less(x, s[0]) then [x] + s else [s[0]] + Insert(x, s[1..])
  }

  lemma {:induction false} InsertSorts(x: text, s: seq<text>)
    requires StrictlySorted(s) && x !in s
    ensures StrictlySorted(Insert(x, s))
    ensures Elems(Insert(x, s)) == Elems(s) + {x}
  {
    if s == [] {
    } else if Less(x, s[0]) {
      forall j | 0 < j < |s| ensures Less(x, s[j]) {
        LessTransitive(x, s[0], s[j]);
      }
    } else {
      LessTotal(x, s[0]);
      InsertSorts(x, s[1..]);
      var r := Insert(x, s[1..]);
      assert Elems(s) == {s[0]} + Elems(s[1..]) by {
        assert s == [s[0]] + s[1..];
      }
      forall j | 0 <= j < |r| ensures Less(s[0], r[j]) {
        assert r[j] in Elems(r);
        if r[j] != x {
          var k :| 0 <= k < |s| - 1 && s[1..][k] == r[j];
          assert Less(s[0], s[k + 1]);
        }
      }
    }
  }

  ghost predicate IsSorting(s: set<text>, q: seq<text>) {
    StrictlySorted(q) && Elems(q) == s
  }

  lemma {:induction false} SortingExists(s: set<text>) returns (q: seq<text>)
    ensures IsSorting(s, q)
  {
    if s == {} {
      q := [];
    } else {
      var x :| x in s;
      var front := SortingExists(s - {x});
      assert x !in Elems(front);
      InsertSorts(x, front);
      q := Insert(x, front);
    }
  }

  /** The sorted sequence of a set. */
  ghost function Sorted(s: set<text>): (q: seq<text>)
    ensures StrictlySorted(q) && Elems(q) == s
  {
    SomeSorting(s);
    var q :| IsSorting(s, q);
    q
  }

  lemma SomeSorting(s: set<text>)
    ensures exists q :: IsSorting(s, q)
  {
    var q := SortingExists(s);
  }

  lemma SortedIs(q: seq<text>)
    requires StrictlySorted(q)
    ensures Sorted(Elems(q)) == q
  {
    SortedUnique(Sorted(Elems(q)), q);
  }

  /** Collects a set in some order and sorts it. */
  method SortSet(s: set<text>) returns (out: seq<text>)
    ensures out == Sorted(s)
  {
    out := [];
    var todo := s;
    while todo != {}
      invariant StrictlySorted(out)
      invariant Elems(out) == s - todo && todo <= s
      decreases |todo|
    {
      var x :| x in todo;
      assert x !in Elems(out);
      InsertSorts(x, out);
      out := Insert(x, out);
      todo := todo - {x};
    }
    assert Elems(out) == s;
    SortedIs(out);
  }
}
