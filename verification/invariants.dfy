/** What the manager's pre-checks keep true beyond the declared schema, and the proof that
    every mutating operation preserves it. */
module Invariants {
  import opened Wrappers
  import opened Tables
  import opened Inventory
  import opened Flush
  import opened Manager

  /** A group's office belongs to the group's company. */
  predicate GroupsInOwnCompany(s: Store) {
    forall g :: g in s.groups && s.groups[g].officeId.Some? && s.groups[g].officeId.value in s.offices ==>
      s.offices[s.groups[g].officeId.value].companyId == s.groups[g].companyId
  }

  /** A host's office belongs to the host's company. */
  predicate HostsInOwnCompany(s: Store) {
    forall h :: h in s.hosts && s.hosts[h].officeId.Some? && s.hosts[h].officeId.value in s.offices ==>
      s.offices[s.hosts[h].officeId.value].companyId == s.hosts[h].companyId
  }

  /** A host only belongs to groups of its own office. */
  predicate MembersShareOffice(s: Store) {
    forall p :: p in s.members && p.0 in s.hosts && p.1 in s.groups ==> s.hosts[p.0].officeId == s.groups[p.1].officeId
  }

  /** Group names are unique per company, across its offices: stricter than the schema's
      (name, company, office) constraint, because `add_group` scans all the company's groups. */
  predicate GroupNamesUniquePerCompany(s: Store) {
    forall i, j :: i in s.groups && j in s.groups && s.groups[i].companyId == s.groups[j].companyId && s.groups[i].name == s.groups[j].name ==> i == j
  }

  /** What the manager keeps true beyond the schema: it holds of the empty store and every
      operation keeps it. */
  predicate Consistent(s: Store) {
    && Valid(s)
    && GroupsInOwnCompany(s)
    && HostsInOwnCompany(s)
    && MembersShareOffice(s)
    && GroupNamesUniquePerCompany(s)
  }

  lemma EmptyConsistent()
    ensures Consistent(EmptyStore())
  {
  }

  lemma AddCompanyConsistent(s: Store, name: Name)
    requires Consistent(s)
    ensures Consistent(AddCompany(s, name).store)
  {
  }

  lemma DelCompanyConsistent(s: Store, name: Name)
    requires Consistent(s)
    ensures Consistent(DelCompany(s, name))
  {
  }

  lemma AddOfficeConsistent(s: Store, officeName: Name, companyName: Name)
    requires Consistent(s)
    ensures Consistent(AddOffice(s, officeName, companyName).store)
  {
    var r := AddOffice(s, officeName, companyName);
    if r.result.Some? {
      var s' := r.store;
      assert forall o :: o in s.offices ==> s'.offices[o] == s.offices[o];
      assert GroupsInOwnCompany(s');
      assert HostsInOwnCompany(s');
    }
  }

  lemma DelOfficeConsistent(s: Store, officeName: Name, companyName: Name)
    requires Consistent(s)
    requires Truthy(officeName) && Truthy(companyName) && CompanyNamed(s, companyName) ==> OfficeNameUnique(s, officeName)
    ensures Consistent(DelOffice(s, officeName, companyName))
  {
  }

  lemma AddGroupConsistent(s: Store, groupName: Name, companyName: Name, officeName: Name)
    requires Consistent(s)
    ensures Consistent(AddGroup(s, groupName, companyName, officeName).store)
  {
    var r := AddGroup(s, groupName, companyName, officeName);
    if r.result.Some? {
      var o := GetOffice(s, officeName, companyName);
      NewGroupRowConsistent(s, r.store, r.result.value, Group(groupName, GetCompany(s, companyName), o));
    }
  }

  /** A committed group row whose office belongs to its company, and whose name no group of
      that company has, keeps the state consistent. */
  lemma NewGroupRowConsistent(s: Store, s': Store, k: Id, g: Group)
    requires Consistent(s) && Valid(s')
    requires k !in s.groups
    requires s' == s.(groups := s.groups[k := g], nextId := s'.nextId)
    requires g.officeId.Some? && g.officeId.value in s.offices && s.offices[g.officeId.value].companyId == g.companyId
    requires forall i :: i in s.groups && s.groups[i].companyId == g.companyId ==> s.groups[i].name != g.name
    ensures Consistent(s')
  {
    NewGroupInOwnCompany(s, s', k, g);
    NewGroupNameUnique(s, s', k, g);
    assert MembersShareOffice(s') by {
      forall p | p in s'.members && p.0 in s'.hosts && p.1 in s'.groups
        ensures s'.hosts[p.0].officeId == s'.groups[p.1].officeId
      {
        assert p.1 != k;
      }
    }
  }

  /** The new group row keeps every group's office in the group's company. */
  lemma NewGroupInOwnCompany(s: Store, s': Store, k: Id, g: Group)
    requires GroupsInOwnCompany(s)
    requires k !in s.groups
    requires s'.offices == s.offices && s'.groups == s.groups[k := g]
    requires g.officeId.Some? && g.officeId.value in s.offices && s.offices[g.officeId.value].companyId == g.companyId
    ensures GroupsInOwnCompany(s')
  {
    forall i | i in s'.groups && s'.groups[i].officeId.Some? && s'.groups[i].officeId.value in s'.offices
      ensures s'.offices[s'.groups[i].officeId.value].companyId == s'.groups[i].companyId
    {
      if i != k {
        assert s'.groups[i] == s.groups[i];
      }
    }
  }

  /** The new group row, named unlike every group of its company, keeps names unique per company. */
  lemma NewGroupNameUnique(s: Store, s': Store, k: Id, g: Group)
    requires GroupNamesUniquePerCompany(s)
    requires k !in s.groups
    requires s'.groups == s.groups[k := g]
    requires forall i :: i in s.groups && s.groups[i].companyId == g.companyId ==> s.groups[i].name != g.name
    ensures GroupNamesUniquePerCompany(s')
  {
    forall i, j | i in s'.groups && j in s'.groups && s'.groups[i].companyId == s'.groups[j].companyId && s'.groups[i].name == s'.groups[j].name
      ensures i == j
    {
      if i != k && j != k {
        assert s.groups[i] == s'.groups[i] && s.groups[j] == s'.groups[j];
      }
    }
  }

  lemma DelGroupConsistent(s: Store, groupName: Name, companyName: Name, officeName: Name)
    requires Consistent(s)
    requires Truthy(officeName) && Truthy(companyName) && CompanyNamed(s, companyName) && OfficeNamed(s, officeName) ==> GroupNameUnique(s, groupName)
    ensures Consistent(DelGroup(s, groupName, companyName, officeName))
  {
  }

  lemma AddHostConsistent(s: Store, hostName: Name, companyName: Name, officeName: Name, groupNames: seq<string>)
    requires Consistent(s)
    requires Truthy(companyName)
    ensures Consistent(AddHost(s, hostName, companyName, officeName, groupNames).store)
  {
    var r := AddHost(s, hostName, companyName, officeName, groupNames);
    if r.result.Some? {
      var o := GetOffice(s, officeName, companyName);
      NewHostRowConsistent(s, r.store, r.result.value, Host(hostName, GetCompany(s, companyName), o));
    }
  }

  /** A committed host row whose office belongs to its company, joined to groups of that office
      only, keeps the state consistent. */
  lemma NewHostRowConsistent(s: Store, s': Store, k: Id, h: Host)
    requires Consistent(s) && Valid(s')
    requires k !in s.hosts
    requires s' == s.(hosts := s.hosts[k := h], members := s'.members, nextId := s'.nextId)
    requires h.officeId.Some? && h.officeId.value in s.offices && s.offices[h.officeId.value].companyId == h.companyId
    requires forall p :: p in s'.members ==> p in s.members || (p.0 == k && p.1 in s.groups && s.groups[p.1].officeId == h.officeId)
    ensures Consistent(s')
  {
    NewHostInOwnCompany(s, s', k, h);
    NewHostMembersShareOffice(s, s', k, h);
  }

  /** The new host row keeps every host's office in the host's company. */
  lemma NewHostInOwnCompany(s: Store, s': Store, k: Id, h: Host)
    requires HostsInOwnCompany(s)
    requires k !in s.hosts
    requires s'.offices == s.offices && s'.hosts == s.hosts[k := h]
    requires h.officeId.Some? && h.officeId.value in s.offices && s.offices[h.officeId.value].companyId == h.companyId
    ensures HostsInOwnCompany(s')
  {
    forall i | i in s'.hosts && s'.hosts[i].officeId.Some? && s'.hosts[i].officeId.value in s'.offices
      ensures s'.offices[s'.hosts[i].officeId.value].companyId == s'.hosts[i].companyId
    {
      if i != k {
        assert s'.hosts[i] == s.hosts[i];
      }
    }
  }

  /** Joining the new host only to groups of its office keeps members within one office. */
  lemma NewHostMembersShareOffice(s: Store, s': Store, k: Id, h: Host)
    requires MembersShareOffice(s) && MembersValid(s)
    requires k !in s.hosts
    requires s'.groups == s.groups && s'.hosts == s.hosts[k := h]
    requires forall p :: p in s'.members ==> p in s.members || (p.0 == k && p.1 in s.groups && s.groups[p.1].officeId == h.officeId)
    ensures MembersShareOffice(s')
  {
    forall p | p in s'.members && p.0 in s'.hosts && p.1 in s'.groups
      ensures s'.hosts[p.0].officeId == s'.groups[p.1].officeId
    {
      if p.0 == k {
        assert p !in s.members;
      } else {
        assert p in s.members;
        assert s'.hosts[p.0] == s.hosts[p.0];
      }
    }
  }

  lemma DelHostConsistent(s: Store, hostName: Name, companyName: Name, officeName: Name)
    requires Consistent(s)
    requires Truthy(officeName) && Truthy(companyName) && CompanyNamed(s, companyName) && OfficeNamed(s, officeName) ==> HostNameUnique(s, hostName)
    ensures Consistent(DelHost(s, hostName, companyName, officeName))
  {
  }
}
