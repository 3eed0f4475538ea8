/** Transfer records, the policy domains they name, and deltas between domain sets. */
module RpzRecords {
  import opened Basics
  import opened Bytes
  import opened Text
  import opened RpzNames
  import opened Sorting

  /** Record types that carry policy; SOA is a constructor of its own because its serial matters. */
  datatype RType = Cname | A | Aaaa | OtherType

  datatype RR = Soa(owner: text, serial: u32) | Rec(owner: text, rtype: RType)

  datatype OwnerResult = BadOwner | NoPolicy | Domain(name: text)

  /** An owner's text in front of the zone. */
  function StripZone(owner: text, zone: text): text {
    TrimSuffix(TrimSuffix(owner, zone), ".")
  }

  function NormalizedOwner(owner: text, zone: text): OwnerResult {
    match NormalizePolicyDomain(StripZone(owner, zone))
    case None => BadOwner
    case Some(d) => Domain(d)
  }

  /** The policy domain a record names in a (lower-case, absolute) zone. */
  function PolicyOwner(rr: RR, zone: text): OwnerResult {
    var owner := ToLower(Fqdn(rr.owner));
    if !IsSubDomain(zone, owner) then BadOwner
    else if owner == zone || rr.Soa? || rr.rtype.OtherType? then NoPolicy
    else NormalizedOwner(owner, zone)
  }

  predicate OwnersOk(rs: seq<RR>, zone: text) {
    forall i :: 0 <= i < |rs| ==> PolicyOwner(rs[i], zone) != BadOwner
  }

  function OwnerSet(o: OwnerResult): set<text> {
    if o.Domain? then {o.name} else {}
  }

  /** The set of policy domains the records name. */
  function Owners(rs: seq<RR>, zone: text): set<text> {
    if rs == [] then {}
    else Owners(rs[..|rs| - 1], zone) + OwnerSet(PolicyOwner(rs[|rs| - 1], zone))
  }

  /** The distinct policy domains of a section, sorted; None if some owner is rejected. */
  method PolicyOwners(rs: seq<RR>, zone: text) returns (r: Option<seq<text>>)
    ensures r == if OwnersOk(rs, zone) then Some(Sorted(Owners(rs, zone))) else None
  {
    hide PolicyOwner;
    var seen: set<text> := {};
    for i := 0 to |rs|
      invariant forall j :: 0 <= j < i ==> PolicyOwner(rs[j], zone) != BadOwner
      invariant seen == Owners(rs[..i], zone)
    {
      assert rs[..i + 1][..i] == rs[..i];
      var owner := PolicyOwner(rs[i], zone);
      if owner == BadOwner {
        return None;
      }
      if owner.Domain? {
        seen := seen + {owner.name};
      }
    }
    assert rs[..|rs|] == rs;
    var out := SortSet(seen);
    r := Some(out);
  }

  /** A domain is in the set exactly when some record names it. */
  lemma {:induction false} OwnersHas(rs: seq<RR>, zone: text, d: text)
    ensures d in Owners(rs, zone) <==> exists i :: 0 <= i < |rs| && PolicyOwner(rs[i], zone) == Domain(d)
  {
    hide PolicyOwner;
    if rs != [] {
      var n := |rs| - 1;
      var front, last := rs[..n], PolicyOwner(rs[n], zone);
      OwnersHas(front, zone, d);
      assert forall i :: 0 <= i < n ==> front[i] == rs[i];
      if d in Owners(front, zone) {
        var i :| 0 <= i < n && PolicyOwner(front[i], zone) == Domain(d);
        assert PolicyOwner(rs[i], zone) == Domain(d);
      }
      if i :| 0 <= i < |rs| && PolicyOwner(rs[i], zone) == Domain(d) {
        assert i < n ==> PolicyOwner(front[i], zone) == Domain(d);
      }
    }
  }

  // ------------------------------------------- domains and their records

  ghost predicate ZoneOk(zone: text) {
    IsName(zone) && ToLower(zone) == zone
  }

  /** The policy domain of a wire record is a domain, and with the zone behind it is the owner again. */
  lemma PolicyOwnerIsDomain(rr: RR, zone: text)
    requires IsName(rr.owner) && ZoneOk(zone) && PolicyOwner(rr, zone).Domain?
    ensures DomainOk(PolicyOwner(rr, zone).name)
    ensures zone != "." ==> ToLower(rr.owner) == PolicyOwner(rr, zone).name + "." + zone
  {
    LowerName(rr.owner);
    LowerIdempotent(rr.owner);
    AbsoluteName(rr.owner);
    var owner := ToLower(rr.owner);
    if zone == "." {
      OwnerInRoot(owner);
    } else {
      OwnerInZone(owner, zone);
    }
  }

  lemma AbsoluteName(s: text)
    requires IsName(s)
    ensures Fqdn(s) == s
  {
    assert s[|s| - 1..] == ".";
  }

  lemma OwnerInRoot(owner: text)
    requires IsName(owner) && ToLower(owner) == owner && owner != "."
    requires NormalizedOwner(owner, ".").Domain?
    ensures DomainOk(NormalizedOwner(owner, ".").name)
  {
    var d := owner[..|owner| - 1];
    assert owner == d + ".";
    LowerFront(owner, |owner| - 1);
    DomainFacts(d);
    DotSuffix(d);
    assert StripZone(owner, ".") == d;
    NormalizeDomain(d);
  }

  /** Text not ending in a dot loses a dot put behind it, and nothing else. */
  lemma DotSuffix(d: text)
    requires d != [] && d[|d| - 1] != '.'
    ensures TrimSuffix(d + ".", ".") == d && TrimSuffix(d, ".") == d
  {
    assert (d + ".")[|d|..] == ".";
    assert d[|d| - 1..] == [d[|d| - 1]];
  }

  lemma ZoneSuffix(p: text, zone: text)
    ensures TrimSuffix(p + "." + zone, zone) == p + "."
    ensures HasSuffix(p + "." + zone, "." + zone)
  {
    var s := p + "." + zone;
    assert s[|s| - |zone|..] == zone;
    assert s[|s| - |zone| - 1..] == "." + zone;
  }

  lemma OwnerInZone(owner: text, zone: text)
    requires IsName(owner) && ToLower(owner) == owner && zone != "." && IsName(zone) && zone != []
    requires HasSuffix(owner, "." + zone)
    ensures NormalizedOwner(owner, zone).Domain?
    ensures DomainOk(NormalizedOwner(owner, zone).name)
    ensures owner == NormalizedOwner(owner, zone).name + "." + zone
  {
    hide Split;
    hide NormalizePolicyDomain;
    hide DomainOk;
    hide IsName;
    var p := owner[..|owner| - |zone| - 1];
    assert owner == p + "." + zone;
    LowerFront(owner, |p|);
    assert p == [] ==> owner[0] == '.';
    NameLonger(owner, zone);
    NameStart(owner);
    PrefixIsDomain(p, zone);
    DomainFacts(p);
    ZoneSuffix(p, zone);
    DotSuffix(p);
    assert StripZone(owner, zone) == p;
    NormalizeDomain(p);
  }

  lemma NameLonger(owner: text, zone: text)
    requires HasSuffix(owner, "." + zone) && zone != []
    ensures owner != "."
  {
  }

  lemma LowerFront(s: text, n: nat)
    requires n <= |s| && ToLower(s) == s
    ensures ToLower(s[..n]) == s[..n]
  {
    assert forall i :: 0 <= i < n ==> ToLower(s)[i] == s[i];
  }

  /** The record the server makes of a domain. */
  function RecordOf(d: text, zone: text): RR {
    Rec(TrimSuffix(d, ".") + "." + zone, Cname)
  }

  /** Reading that record's owner gives the domain back, for every zone but the root. */
  lemma RecordOfRoundTrip(d: text, zone: text)
    requires DomainOk(d) && ZoneOk(zone) && zone != "."
    ensures PolicyOwner(RecordOf(d, zone), zone) == Domain(d)
  {
    hide Split;
    hide NormalizePolicyDomain;
    hide PolicyOwner;
    DomainFacts(d);
    DotSuffix(d);
    var owner := d + "." + zone;
    assert RecordOf(d, zone).owner == owner;
    assert Fqdn(owner) == owner by {
      assert zone[|zone| - 1] == '.';
      assert owner[|owner| - 1..] == ".";
    }
    LowerAppend(d, zone);
    ZoneSuffix(d, zone);
    assert StripZone(owner, zone) == d;
    NormalizeDomain(d);
    InZone(RecordOf(d, zone), zone, d);
  }

  /** That owner is a name a message can hold if and only if the zone is not the root and the whole is not too long. */
  lemma ServedNameExactly(d: text, zone: text)
    requires DomainOk(d) && ZoneOk(zone)
    ensures IsName(RecordOf(d, zone).owner) <==> zone != "." && |d| + 1 + |zone| <= 254
  {
    hide Split, NameLabel, ToLower;
    DomainFacts(d);
    DotSuffix(d);
    var owner := d + "." + zone;
    assert (d + ".")[..|d|] == d;
    assert zone[|zone| - 1] == '.';
    if zone == "." {
      assert owner[..|owner| - 1] == d + ".";
      if IsName(owner) {
        LabelsNoSpace(d + ".");
      }
    } else {
      var z := zone[..|zone| - 1];
      assert owner[..|owner| - 1] == d + ['.'] + z;
      SplitAppend(d, z, '.');
    }
  }

  lemma InZone(rr: RR, zone: text, d: text)
    requires Fqdn(rr.owner) == rr.owner && ToLower(rr.owner) == rr.owner && HasSuffix(rr.owner, "." + zone)
    requires rr.owner != zone && rr.Rec? && !rr.rtype.OtherType?
    requires NormalizedOwner(rr.owner, zone) == Domain(d)
    ensures PolicyOwner(rr, zone) == Domain(d)
  {
    hide NormalizedOwner;
  }

  lemma LowerAppend(d: text, zone: text)
    requires ToLower(d) == d && ToLower(zone) == zone
    ensures ToLower(d + "." + zone) == d + "." + zone
  {
    assert forall i :: 0 <= i < |d| ==> ToLower(d)[i] == d[i];
    assert forall i :: 0 <= i < |zone| ==> ToLower(zone)[i] == zone[i];
  }

  // ---------------------------------------------------------------- deltas

  /** A transfer's effect: a full replacement staged as lines, or domains to add and to delete. */
  datatype Delta = Delta(fromSerial: u32, toSerial: u32, full: bool, added: seq<text>, deleted: seq<text>,
                         staged: Option<seq<text>>)

  /** What a delta means for a set of domains: deletions first, then additions. */
  function Apply(delta: Delta, s: set<text>): set<text> {
    s - Elems(delta.deleted) + Elems(delta.added)
  }

  /** Added and deleted domains as the transfer parser leaves them. */
  ghost predicate NetForm(delta: Delta) {
    && StrictlySorted(delta.added) && StrictlySorted(delta.deleted)
    && Elems(delta.added) !! Elems(delta.deleted)
  }

  /** Applying a delta twice is applying it once. */
  lemma ApplyIdempotent(delta: Delta, s: set<text>)
    ensures Apply(delta, Apply(delta, s)) == Apply(delta, s)
  {
  }

  /** The domains a delta decides about. */
  function Mentions(delta: Delta): set<text> {
    Elems(delta.added) + Elems(delta.deleted)
  }

  /** The domains that are in one set only. */
  function Differ(a: set<text>, b: set<text>): set<text> {
    (a - b) + (b - a)
  }

  /** A delta makes two sets equal if and only if it decides about every domain they differ in. */
  lemma MakesEqual(delta: Delta, a: set<text>, b: set<text>)
    ensures Apply(delta, a) == Apply(delta, b) <==> Differ(a, b) <= Mentions(delta)
  {
    if Apply(delta, a) == Apply(delta, b) {
      forall d | d in Differ(a, b) ensures d in Mentions(delta) {
        assert d in Apply(delta, a) <==> d in Apply(delta, b);
      }
    }
  }

  /** What a delta changes it mentions. */
  lemma ChangesMentioned(delta: Delta, s: set<text>)
    ensures Differ(Apply(delta, s), s) <= Mentions(delta)
  {
  }

  /**
   * Applying a second delta undoes a first one, whatever set the first was applied to, if and only if
   * the second mentions every domain the first does.
   */
  lemma UndoesExactly(first: Delta, second: Delta)
    requires NetForm(first)
    ensures (forall s :: Apply(second, Apply(first, s)) == Apply(second, s)) <==> Mentions(first) <= Mentions(second)
  {
    hide Apply, Differ, Mentions, StrictlySorted;
    if Mentions(first) <= Mentions(second) {
      forall s ensures Apply(second, Apply(first, s)) == Apply(second, s) {
        ChangesMentioned(first, s);
        MakesEqual(second, Apply(first, s), s);
      }
    } else {
      var s := Elems(first.deleted);
      ChangesAll(first);
      MakesEqual(second, Apply(first, s), s);
    }
  }

  lemma ChangesAll(delta: Delta)
    requires NetForm(delta)
    ensures Differ(Apply(delta, Elems(delta.deleted)), Elems(delta.deleted)) == Mentions(delta)
  {
    hide StrictlySorted;
  }
}
