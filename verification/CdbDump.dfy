/** Reading a written database record by record, as a tool that dumps it does. */
module CdbDump {
  import opened Basics
  import opened Bytes
  import opened CdbFormat

  /** The number four bytes stand for, lowest byte first. */
  function Word(data: seq<byte>, p: nat): nat
    requires p + 4 <= |data|
  {
    data[p] as int + 256 * data[p + 1] as int + 65536 * data[p + 2] as int + 16777216 * data[p + 3] as int
  }

  /** The entries from byte p up to byte end, each found by the two lengths in front of it. */
  function Dump(data: seq<byte>, p: nat, end: nat): Option<seq<Entry>>
    requires end <= |data|
    decreases end - p
  {
    if p == end then Some([])
    else if p + 8 > end || p + 8 + Word(data, p) + Word(data, p + 4) > end then None
    else
      var k, v := p + 8 + Word(data, p), p + 8 + Word(data, p) + Word(data, p + 4);
      match Dump(data, v, end)
      case None => None
      case Some(rest) => Some([Entry(data[p + 8..k], data[k..v])] + rest)
  }

  /** A stored word reads back as its number. */
  lemma StoredWord(data: seq<byte>, p: nat, x: u32)
    requires p + 4 <= |data| && data[p..p + 4] == Le32(x)
    ensures Word(data, p) == x
  {
    Digits(x);
    var w := data[p..p + 4];
    assert w[0] == data[p] && w[1] == data[p + 1] && w[2] == data[p + 2] && w[3] == data[p + 3];
  }

  lemma FourParts(a: seq<byte>, b: seq<byte>, c: seq<byte>, d: seq<byte>)
    ensures var s, i, j := a + b + c + d, |a| + |b|, |a| + |b| + |c|;
            s[0..|a|] == a && s[|a|..i] == b && s[i..j] == c && s[j..|s|] == d
  {
  }

  /** The two lengths, the key and the value of a record that stands in the file. */
  lemma RecordFields(data: seq<byte>, rs: seq<Rec>, i: nat)
    requires i < |rs| && RecordOk(data, rs, i)
    ensures var p, r := RecPos(rs, i), rs[i];
            && RecPos(rs, i + 1) == p + 8 + |r.key| + |r.val| <= |data|
            && Word(data, p) == |r.key| && Word(data, p + 4) == |r.val|
            && data[p + 8..p + 8 + |r.key|] == r.key
            && data[p + 8 + |r.key|..p + 8 + |r.key| + |r.val|] == r.val
  {
    hide Le32, Word, RecPos;
    var p, q, r := RecPos(rs, i), RecPos(rs, i + 1), rs[i];
    NextPosition(rs, i);
    FourParts(Le32(|r.key|), Le32(|r.val|), r.key, r.val);
    Within(data, p, q, 0, 4);
    Within(data, p, q, 4, 8);
    Within(data, p, q, 8, 8 + |r.key|);
    Within(data, p, q, 8 + |r.key|, q - p);
    StoredWord(data, p, |r.key|);
    StoredWord(data, p + 4, |r.val|);
  }

  lemma NextPosition(rs: seq<Rec>, i: nat)
    requires i < |rs|
    ensures RecPos(rs, i + 1) == RecPos(rs, i) + 8 + |rs[i].key| + |rs[i].val|
  {
  }

  /** One record in front of what is dumped behind it. */
  lemma DumpNext(data: seq<byte>, p: nat, end: nat, e: Entry, rest: seq<Entry>)
    requires p + 8 + |e.key| + |e.val| <= end <= |data|
    requires Word(data, p) == |e.key| && Word(data, p + 4) == |e.val|
    requires data[p + 8..p + 8 + |e.key|] == e.key
    requires data[p + 8 + |e.key|..p + 8 + |e.key| + |e.val|] == e.val
    requires Dump(data, p + 8 + |e.key| + |e.val|, end) == Some(rest)
    ensures Dump(data, p, end) == Some([e] + rest)
  {
    hide Word;
  }

  lemma DumpEnd(data: seq<byte>, end: nat)
    requires end <= |data|
    ensures Dump(data, end, end) == Some([])
  {
  }

  lemma {:induction false} DumpFrom(data: seq<byte>, rs: seq<Rec>, es: seq<Entry>, i: nat)
    requires |rs| == |es| && i <= |rs| && RecPos(rs, |rs|) <= |data|
    requires forall j :: i <= j < |rs| ==> RecordOk(data, rs, j) && rs[j].key == es[j].key && rs[j].val == es[j].val
    ensures RecPos(rs, i) <= RecPos(rs, |rs|)
    ensures Dump(data, RecPos(rs, i), RecPos(rs, |rs|)) == Some(es[i..])
    decreases |rs| - i
  {
    hide RecordOk, Word, RecPos, Dump;
    RecPosMonotone(rs, i, |rs|);
    if i < |rs| {
      RecordFields(data, rs, i);
      DumpFrom(data, rs, es, i + 1);
      RecPosMonotone(rs, i + 1, |rs|);
      DumpNext(data, RecPos(rs, i), RecPos(rs, |rs|), es[i], es[i + 1..]);
      assert [es[i]] + es[i + 1..] == es[i..];
    } else {
      assert es[i..] == [];
      DumpEnd(data, RecPos(rs, i));
    }
  }

  /**
   * The header's first word says where the first table starts, and the records from byte 2048 up to
   * there are these entries.
   */
  ghost predicate Dumps(data: seq<byte>, es: seq<Entry>) {
    |data| >= 2048 && 2048 <= Word(data, 0) <= |data| && Dump(data, 2048, Word(data, 0)) == Some(es)
  }

  /**
   * What a written file holds, byte by byte: reading its records, each by the two lengths in front of it,
   * gives back exactly the entries, keys and values, in their order, and ends at the first table.
   */
  lemma DumpRoundTrip(data: seq<byte>, es: seq<Entry>)
    requires IsImage(data, RecordsOf(es))
    ensures Dumps(data, es)
  {
    hide HashOf, TableOk, RecordOk, Word, BucketUpTo, Le32, Dump;
    var rs := RecordsOf(es);
    RecordsOfFacts(es);
    RecPosMonotone(rs, 0, |rs|);
    TablePosMonotone(rs, 0, SLOTS);
    assert HeaderOk(data, rs, 0);
    PositionsFit(rs, 0);
    FirstHalf(Le32(TablePos(rs, 0)), Le32(|Bucket(rs, 0)|));
    Within(data, 0, 8, 0, 4);
    StoredWord(data, 0, TablePos(rs, 0));
    forall j | 0 <= j < |rs| ensures rs[j].key == es[j].key && rs[j].val == es[j].val {
      assert Describes(rs[j], es[j]);
    }
    DumpFrom(data, rs, es, 0);
    assert es[0..] == es;
  }

  lemma FirstHalf(a: seq<byte>, b: seq<byte>)
    ensures (a + b)[0..|a|] == a
  {
  }
}
