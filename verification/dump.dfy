/** `dump_hosts_by_group`: the denormalised export that maps `"{company}_{office}_{group}"` to the
    names of the group's hosts, built by nested loops over companies, their offices and the
    offices' groups. */
module Dump {
  import opened Wrappers
  import opened Tables
  import opened Inventory

  /** One pass of the innermost loop body: a company, one of its offices, one of that office's groups. */
  datatype Visit = Visit(company: Id, office: Id, group: Id)

  /** The company exists, the office belongs to it and the group to the office. */
  ghost predicate Placed(s: Store, v: Visit) {
    && v.company in s.companies
    && v.office in s.offices && s.offices[v.office].companyId == Some(v.company)
    && v.group in s.groups && s.groups[v.group].officeId == Some(v.office)
  }

  /** `for group in office.groups` */
  function GroupVisits(s: Store, c: Id, o: Id): (vs: seq<Visit>)
    requires KeysDrawn(s)
    ensures forall v :: v in vs <==> v.company == c && v.office == o && v.group in s.groups && s.groups[v.group].officeId == Some(o)
    ensures NoDuplicates(vs)
  {
    VisitsOf(c, o, OfficeGroups(s, o))
  }

  /** One visit per group of `gs`, in order. */
  function VisitsOf(c: Id, o: Id, gs: seq<Id>): (vs: seq<Visit>)
    requires Increasing(gs)
    ensures forall v :: v in vs <==> v.company == c && v.office == o && v.group in gs
    ensures NoDuplicates(vs)
  {
    if gs == [] then []
    else
      var rest := VisitsOf(c, o, gs[1..]);
      assert gs[0] !in gs[1..];
      NoDuplicatesConcat([Visit(c, o, gs[0])], rest);
      [Visit(c, o, gs[0])] + rest
  }

  /** `for office in company.offices`, over the offices `os` still to visit. */
  function OfficeVisits(s: Store, c: Id, os: seq<Id>): (vs: seq<Visit>)
    requires KeysDrawn(s)
    requires Increasing(os)
    ensures forall v :: v in vs <==> v.company == c && v.office in os && v.group in s.groups && s.groups[v.group].officeId == Some(v.office)
    ensures NoDuplicates(vs)
  {
    if os == [] then []
    else
      var first := GroupVisits(s, c, os[0]);
      var rest := OfficeVisits(s, c, os[1..]);
      assert forall v :: v in first ==> v !in rest by {
        assert os[0] !in os[1..];
      }
      NoDuplicatesConcat(first, rest);
      first + rest
  }

  /** `for company in session.query(Company)`, over the companies `cs` still to visit. */
  function CompanyVisits(s: Store, cs: seq<Id>): (vs: seq<Visit>)
    requires KeysDrawn(s)
    requires Increasing(cs)
    requires forall k :: 0 <= k < |cs| ==> cs[k] in s.companies
    ensures forall v :: v in vs <==> v.company in cs && Placed(s, v)
    ensures NoDuplicates(vs)
  {
    if cs == [] then []
    else
      var first := OfficeVisits(s, cs[0], CompanyOffices(s, cs[0]));
      var rest := CompanyVisits(s, cs[1..]);
      assert forall v :: v in first ==> v !in rest by {
        assert cs[0] !in cs[1..];
      }
      NoDuplicatesConcat(first, rest);
      first + rest
  }

  /** Every visit of the nested loops, in order: one per company, office of the company and
      group of the office, and no visit twice. */
  function Visits(s: Store): (vs: seq<Visit>)
    requires KeysDrawn(s)
    ensures forall v :: v in vs <==> Placed(s, v)
    ensures NoDuplicates(vs)
  {
    CompanyVisits(s, Select(s.companies, (i: Id, c: Company) => true, s.nextId))
  }

  /** `'{}_{}_{}'.format(company.name, office.name, group.name)` */
  function Key(s: Store, v: Visit): string
    requires NamesPresent(s) && Placed(s, v)
  {
    s.companies[v.company].name.value + "_" + s.offices[v.office].name.value + "_" + s.groups[v.group].name.value
  }

  /** `[host.name for host in group.hosts]`, in key order. */
  function HostNames(s: Store, g: Id): (names: seq<string>)
    requires KeysDrawn(s) && NamesPresent(s)
    ensures |names| == |GroupHosts(s, g)|
    ensures forall k :: 0 <= k < |names| ==> Some(names[k]) == s.hosts[GroupHosts(s, g)[k]].name
  {
    NamesOf(s, GroupHosts(s, g))
  }

  /** The names of the hosts `hs`, in order. */
  function NamesOf(s: Store, hs: seq<Id>): (names: seq<string>)
    requires NamesPresent(s)
    requires forall k :: 0 <= k < |hs| ==> hs[k] in s.hosts
    ensures |names| == |hs|
    ensures forall k :: 0 <= k < |names| ==> Some(names[k]) == s.hosts[hs[k]].name
  {
    if hs == [] then [] else [s.hosts[hs[0]].name.value] + NamesOf(s, hs[1..])
  }

  /** The dictionary after the loop bodies for `vs` have run on `d`: each assigns its key,
      overwriting what an earlier visit with the same key stored. */
  function Fill(s: Store, d: map<string, seq<string>>, vs: seq<Visit>): map<string, seq<string>>
    requires KeysDrawn(s) && NamesPresent(s)
    requires forall v :: v in vs ==> Placed(s, v)
    decreases |vs|
  {
    if vs == [] then d
    else Fill(s, d[Key(s, vs[0]) := HostNames(s, vs[0].group)], vs[1..])
  }

  /** `dump_hosts_by_group`: the dictionary the loops build. */
  function DumpHostsByGroup(s: Store): map<string, seq<string>>
    requires Valid(s)
  {
    ValidNamesPresent(s);
    Fill(s, map[], Visits(s))
  }

  /** The visit at index `i` is the last one in `vs` whose key is `k`. */
  ghost predicate LastWithKey(s: Store, vs: seq<Visit>, i: int, k: string)
    requires KeysDrawn(s) && NamesPresent(s)
    requires forall v :: v in vs ==> Placed(s, v)
  {
    && 0 <= i < |vs|
    && Key(s, vs[i]) == k
    && forall j :: i < j < |vs| ==> Key(s, vs[j]) != k
  }

  /** What the fill leaves under a key: the hosts of the last visit with that key, or what was
      there before when no visit has it. */
  lemma {:induction false} FillLastWins(s: Store, d: map<string, seq<string>>, vs: seq<Visit>, k: string)
    requires KeysDrawn(s) && NamesPresent(s)
    requires forall v :: v in vs ==> Placed(s, v)
    ensures k in Fill(s, d, vs) <==> k in d || exists i :: 0 <= i < |vs| && Key(s, vs[i]) == k
    ensures forall i :: LastWithKey(s, vs, i, k) ==> Fill(s, d, vs)[k] == HostNames(s, vs[i].group)
    ensures k in d && (forall i :: 0 <= i < |vs| ==> Key(s, vs[i]) != k) ==> Fill(s, d, vs)[k] == d[k]
    decreases |vs|
  {
    if vs != [] {
      var d' := d[Key(s, vs[0]) := HostNames(s, vs[0].group)];
      FillLastWins(s, d', vs[1..], k);
      assert forall i :: 0 < i < |vs| ==> vs[i] == vs[1..][i - 1];
      if exists i :: 0 <= i < |vs| && Key(s, vs[i]) == k {
        var i :| 0 <= i < |vs| && Key(s, vs[i]) == k;
        if i > 0 {
          assert Key(s, vs[1..][i - 1]) == k;
        }
      }
      forall i | LastWithKey(s, vs, i, k)
        ensures Fill(s, d, vs)[k] == HostNames(s, vs[i].group)
      {
        if i > 0 {
          assert LastWithKey(s, vs[1..], i - 1, k);
        } else {
          assert forall j :: 0 <= j < |vs[1..]| ==> Key(s, vs[1..][j]) != k;
        }
      }
    }
  }

  /** The dump has a key exactly when some company, office of it and group of that office
      spell it. */
  lemma DumpKeys(s: Store, k: string)
    requires Valid(s)
    ensures k in DumpHostsByGroup(s) <==> exists v: Visit :: Placed(s, v) && Key(s, v) == k
  {
    ValidNamesPresent(s);
    FillKeys(s, Visits(s), k);
  }

  /** Filling an empty dictionary from `vs` gives it exactly the keys the visits spell. */
  lemma FillKeys(s: Store, vs: seq<Visit>, k: string)
    requires KeysDrawn(s) && NamesPresent(s)
    requires forall v :: v in vs <==> Placed(s, v)
    ensures k in Fill(s, map[], vs) <==> exists v: Visit :: Placed(s, v) && Key(s, v) == k
  {
    FillLastWins(s, map[], vs, k);
    if exists v: Visit :: Placed(s, v) && Key(s, v) == k {
      var v: Visit :| Placed(s, v) && Key(s, v) == k;
      assert v in vs;
      var i :| 0 <= i < |vs| && vs[i] == v;
      assert Key(s, vs[i]) == k;
    }
  }

  /** Under a key, the dump holds the host names of the group of the LAST visit that spells it:
      a later colliding key overwrites an earlier one. */
  lemma DumpLastWins(s: Store, k: string)
    requires Valid(s)
    requires k in DumpHostsByGroup(s)
    ensures exists i :: LastWithKey(s, Visits(s), i, k) && DumpHostsByGroup(s)[k] == HostNames(s, Visits(s)[i].group)
  {
    ValidNamesPresent(s);
    var vs := Visits(s);
    FillLastWins(s, map[], vs, k);
    LastWithKeyExists(s, vs, k);
  }

  /** A key that some visit spells has a last visit spelling it. */
  lemma {:induction false} LastWithKeyExists(s: Store, vs: seq<Visit>, k: string)
    requires KeysDrawn(s) && NamesPresent(s)
    requires forall v :: v in vs ==> Placed(s, v)
    requires exists i :: 0 <= i < |vs| && Key(s, vs[i]) == k
    ensures exists i :: LastWithKey(s, vs, i, k)
    decreases |vs|
  {
    var n := |vs| - 1;
    if Key(s, vs[n]) == k {
      assert LastWithKey(s, vs, n, k);
    } else {
      var front := vs[..n];
      var i :| 0 <= i < |vs| && Key(s, vs[i]) == k;
      assert front[i] == vs[i];
      LastWithKeyExists(s, front, k);
      var j :| LastWithKey(s, front, j, k);
      assert LastWithKey(s, vs, j, k);
    }
  }

  /** A group whose key no other company/office/group spells is dumped with exactly its own
      hosts' names. */
  lemma DumpUniqueKey(s: Store, v: Visit)
    requires Valid(s) && Placed(s, v)
    requires forall w :: Placed(s, w) && Key(s, w) == Key(s, v) ==> w == v
    ensures Key(s, v) in DumpHostsByGroup(s)
    ensures DumpHostsByGroup(s)[Key(s, v)] == HostNames(s, v.group)
  {
    DumpKeys(s, Key(s, v));
    DumpLastWins(s, Key(s, v));
  }

  /** Names containing the separator make distinct groups collide on one key: in company `a`,
      group `c_d` of office `b` and group `d` of office `b_c` are both dumped as `a_b_c_d`, and
      only the later one survives. */
  lemma KeyCollision()
    ensures exists s: Store, v: Visit, w: Visit ::
      Valid(s) && Placed(s, v) && Placed(s, w) && v != w && Key(s, v) == Key(s, w)
  {
    var s := Store(
      map[0 := Company(Some("a"))],
      map[1 := Office(Some("b"), Some(0)), 2 := Office(Some("b_c"), Some(0))],
      map[3 := Group(Some("c_d"), Some(0), Some(1)), 4 := Group(Some("d"), Some(0), Some(2))],
      map[], {}, 5);
    assert OfficesValid(s) by { assert s.offices.Keys == {1, 2}; }
    assert GroupsValid(s) by { assert s.groups.Keys == {3, 4}; }
    var v := Visit(0, 1, 3);
    var w := Visit(0, 2, 4);
    assert Key(s, v) == "a" + "_" + "b" + "_" + "c_d";
    assert Key(s, w) == "a" + "_" + "b_c" + "_" + "d";
    assert Placed(s, v) && Placed(s, w) && v != w && Key(s, v) == Key(s, w);
  }
}
