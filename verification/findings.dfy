/** Two defects of the manager as written, each shown on a concrete store, and the corrected
    operations with the intended properties proved about them.

    1. The delete lookups of `del_office`, `del_group` and `del_host` filter on columns of
       several tables without a join condition, so the parent names only have to be in use
       somewhere: the record deleted can belong to another company or office.
    2. `add_host` checks the office's groups against `group_names` rather than the names against
       the office's groups: a host asked into one of two groups is refused, and a misspelt name
       next to the right ones is silently dropped. */
module Findings {
  import opened Wrappers
  import opened Tables
  import opened Inventory
  import opened Flush
  import opened Manager
  import opened Invariants

  // ---------------------------------------------------------------------------------
  // Scoped deletes
  // ---------------------------------------------------------------------------------

  /** `del_office` with the lookup joined to its company: only the named company's office of
      that name can go, and, as in `del_office`, only when nothing refers to it. */
  function DelOfficeScoped(s: Store, officeName: Name, companyName: Name): (r: Store)
    requires Valid(s)
    ensures Valid(r)
    ensures GetOffice(s, officeName, companyName).None? ==> r == s
    ensures forall o :: o in s.offices && GetOffice(s, officeName, companyName).Some? && s.offices[o] == Office(officeName, GetCompany(s, companyName)) ==>
      r == if OfficeInUse(s, o) then s else s.(offices := s.offices - {o})
    ensures forall o :: o in s.offices && s.offices[o].companyId != GetCompany(s, companyName) ==> o in r.offices
  {
    match GetOffice(s, officeName, companyName)
    case None => s
    case Some(o) =>
      DetachOfficeCommits(s, o);
      Commit(s, DetachOffice(s, o))
  }

  /** The group the joined `del_group` lookup finds: the one with that name in the named office
      of the named company. */
  function ScopedGroup(s: Store, groupName: Name, companyName: Name, officeName: Name): (r: Option<Id>)
    requires Valid(s)
    ensures r.Some? <==>
      && GetOffice(s, officeName, companyName).Some?
      && Group(groupName, GetCompany(s, companyName), GetOffice(s, officeName, companyName)) in s.groups.Values
    ensures r.Some? ==>
      && r.value in s.groups
      && s.groups[r.value] == Group(groupName, GetCompany(s, companyName), GetOffice(s, officeName, companyName))
  {
    match GetOffice(s, officeName, companyName)
    case None => None
    case Some(o) =>
      var g := Group(groupName, GetCompany(s, companyName), Some(o));
      FirstWhere(s.groups, (i: Id, gr: Group) => gr == g, s.nextId)
  }

  /** `del_group` with the lookup joined to its office and company: only a group of the named
      office of the named company goes, with its association rows. */
  function DelGroupScoped(s: Store, groupName: Name, companyName: Name, officeName: Name): (r: Store)
    requires Valid(s)
    ensures Valid(r)
    ensures ScopedGroup(s, groupName, companyName, officeName).None? ==> r == s
    ensures forall g ::
      (&& g in s.groups && GetOffice(s, officeName, companyName).Some?
       && s.groups[g] == Group(groupName, GetCompany(s, companyName), GetOffice(s, officeName, companyName))) ==>
      && r == s.(groups := s.groups - {g}, members := r.members)
      && forall p :: p in r.members <==> p in s.members && p.1 != g
    ensures forall g :: g in s.groups && s.groups[g].officeId != GetOffice(s, officeName, companyName) ==> g in r.groups
  {
    match ScopedGroup(s, groupName, companyName, officeName)
    case None => s
    case Some(g) =>
      RemoveGroupValid(s, g, RemoveGroup(s, g));
      Commit(s, RemoveGroup(s, g))
  }

  /** `del_host` with the lookup joined to its office and company: only a host of the named
      office of the named company goes, with its association rows. */
  function DelHostScoped(s: Store, hostName: Name, companyName: Name, officeName: Name): (r: Store)
    requires Valid(s)
    ensures Valid(r)
    ensures Host(hostName, GetCompany(s, companyName), GetOffice(s, officeName, companyName)) !in s.hosts.Values ==> r == s
    ensures forall h ::
      (&& h in s.hosts && GetOffice(s, officeName, companyName).Some?
       && s.hosts[h] == Host(hostName, GetCompany(s, companyName), GetOffice(s, officeName, companyName))) ==>
      && r == s.(hosts := s.hosts - {h}, members := r.members)
      && forall p :: p in r.members <==> p in s.members && p.0 != h
    ensures forall h :: h in s.hosts && s.hosts[h].officeId != GetOffice(s, officeName, companyName) ==> h in r.hosts
  {
    match GetOffice(s, officeName, companyName)
    case None => s
    case Some(o) =>
      var host := Host(hostName, GetCompany(s, companyName), Some(o));
      match FirstWhere(s.hosts, (i: Id, ho: Host) => ho == host, s.nextId)
      case None => s
      case Some(h) =>
        RemoveHostValid(s, h, RemoveHost(s, h));
        Commit(s, RemoveHost(s, h))
  }

  // The corrected deletes keep the manager's invariant, as the originals do.

  lemma DelOfficeScopedConsistent(s: Store, officeName: Name, companyName: Name)
    requires Consistent(s)
    ensures Consistent(DelOfficeScoped(s, officeName, companyName))
  {
  }

  lemma DelGroupScopedConsistent(s: Store, groupName: Name, companyName: Name, officeName: Name)
    requires Consistent(s)
    ensures Consistent(DelGroupScoped(s, groupName, companyName, officeName))
  {
  }

  lemma DelHostScopedConsistent(s: Store, hostName: Name, companyName: Name, officeName: Name)
    requires Consistent(s)
    ensures Consistent(DelHostScoped(s, hostName, companyName, officeName))
  {
  }

  // ---------------------------------------------------------------------------------
  // Strict add_host
  // ---------------------------------------------------------------------------------

  /** Some group of office `o` has the name `n`. */
  predicate OfficeHasGroup(s: Store, o: Option<Id>, n: string) {
    exists g :: g in s.groups && s.groups[g].officeId == o && s.groups[g].name == Some(n)
  }

  /** `add_host` with the group check turned the right way round: every name in `group_names`
      must be a group of the office, and the host joins the office's groups that are named. */
  function AddHostStrict(s: Store, hostName: Name, companyName: Name, officeName: Name, groupNames: seq<string>): (r: Step)
    requires Valid(s)
    requires Truthy(companyName)
    ensures Valid(r.store)
    ensures r.result.Some? <==>
      && GetOffice(s, officeName, companyName).Some?
      && |groupNames| > 0
      && hostName.Some?
      && (forall i :: i in s.hosts && s.hosts[i].officeId == GetOffice(s, officeName, companyName) ==> s.hosts[i].name != hostName)
      && (forall k :: 0 <= k < |groupNames| ==> OfficeHasGroup(s, GetOffice(s, officeName, companyName), groupNames[k]))
    ensures r.result.None? ==> r.store == s
    ensures r.result.Some? ==>
      var k := r.result.value;
      && k !in s.hosts
      && r.store == s.(hosts := s.hosts[k := Host(hostName, GetCompany(s, companyName), GetOffice(s, officeName, companyName))], members := r.store.members, nextId := k + 1)
      && forall p :: p in r.store.members <==>
           || p in s.members
           || (&& p.0 == k && p.1 in s.groups && s.groups[p.1].officeId == GetOffice(s, officeName, companyName)
               && NamedIn(s.groups[p.1].name, groupNames))
  {
    match GetCompany(s, companyName)
    case None => Step(s, None)
    case Some(c) =>
      match GetOffice(s, officeName, companyName)
      case None => Step(s, None)
      case Some(o) =>
        if |groupNames| == 0 then Step(s, None)
        else if GetHost(s, hostName, companyName, officeName).Some? then Step(s, None)
        else
          match NamedGroups(s, o, groupNames)
          case None => Step(s, None)
          case Some(named) => CreateHost(s, hostName, c, o, named)
  }

  /** The groups of office `o` that `group_names` names, or None when some name is not a group
      of the office. */
  function NamedGroups(s: Store, o: Id, groupNames: seq<string>): (r: Option<set<Id>>)
    requires Valid(s)
    ensures r.Some? <==> forall k :: 0 <= k < |groupNames| ==> OfficeHasGroup(s, Some(o), groupNames[k])
    ensures r.Some? ==> forall g :: g in r.value <==>
      g in s.groups && s.groups[g].officeId == Some(o) && NamedIn(s.groups[g].name, groupNames)
  {
    ValidNamesPresent(s);
    var officeGroups := OfficeGroups(s, o);
    if exists k :: 0 <= k < |groupNames| && !(exists j :: 0 <= j < |officeGroups| && s.groups[officeGroups[j]].name == Some(groupNames[k])) then
      var k :| 0 <= k < |groupNames| && !(exists j :: 0 <= j < |officeGroups| && s.groups[officeGroups[j]].name == Some(groupNames[k]));
      OfficeGroupListed(s, o, groupNames[k]);
      None
    else
      assert forall k :: 0 <= k < |groupNames| ==> OfficeHasGroup(s, Some(o), groupNames[k]) by {
        forall k | 0 <= k < |groupNames|
          ensures OfficeHasGroup(s, Some(o), groupNames[k])
        {
          var j :| 0 <= j < |officeGroups| && s.groups[officeGroups[j]].name == Some(groupNames[k]);
        }
      }
      Some(set g | g in OfficeGroupSet(s, o) && NamedIn(s.groups[g].name, groupNames))
  }

  /** A group of office `o` named `n` is on the office's `groups` list. */
  lemma OfficeGroupListed(s: Store, o: Id, n: string)
    requires Valid(s)
    ensures OfficeHasGroup(s, Some(o), n) ==>
      exists j :: 0 <= j < |OfficeGroups(s, o)| && s.groups[OfficeGroups(s, o)[j]].name == Some(n)
  {
    if OfficeHasGroup(s, Some(o), n) {
      var g :| g in s.groups && s.groups[g].officeId == Some(o) && s.groups[g].name == Some(n);
      assert g in OfficeGroups(s, o);
    }
  }

  /** The strict `add_host` keeps the manager's invariant. */
  lemma AddHostStrictConsistent(s: Store, hostName: Name, companyName: Name, officeName: Name, groupNames: seq<string>)
    requires Consistent(s)
    requires Truthy(companyName)
    ensures Consistent(AddHostStrict(s, hostName, companyName, officeName, groupNames).store)
  {
    var r := AddHostStrict(s, hostName, companyName, officeName, groupNames);
    if r.result.Some? {
      var o := GetOffice(s, officeName, companyName);
      NewHostRowConsistent(s, r.store, r.result.value, Host(hostName, GetCompany(s, companyName), o));
    }
  }

  /** When the strict `add_host` succeeds, each requested name is one of the new host's groups. */
  lemma AddHostStrictJoinsRequested(s: Store, hostName: Name, companyName: Name, officeName: Name, groupNames: seq<string>, k: nat)
    requires Valid(s) && Truthy(companyName) && k < |groupNames|
    requires AddHostStrict(s, hostName, companyName, officeName, groupNames).result.Some?
    ensures var r := AddHostStrict(s, hostName, companyName, officeName, groupNames);
      exists g :: (r.result.value, g) in r.store.members && g in s.groups && s.groups[g].name == Some(groupNames[k])
  {
    var r := AddHostStrict(s, hostName, companyName, officeName, groupNames);
    var o := GetOffice(s, officeName, companyName);
    assert OfficeHasGroup(s, o, groupNames[k]);
    var g :| g in s.groups && s.groups[g].officeId == o && s.groups[g].name == Some(groupNames[k]);
    assert NamedIn(s.groups[g].name, groupNames);
    assert (r.result.value, g) in r.store.members;
  }
}
