/** What each `session.add`/`session.delete` followed by `session.commit()` writes, and when
    the commit succeeds: the schema's constraints decide, and a failed commit is rolled back. */
module Flush {
  import opened Wrappers
  import opened Tables
  import opened Inventory

  /** The state `Company(name=...)` plus its commit would write. */
  function NewCompany(s: Store, name: Name): Store {
    s.(companies := s.companies[s.nextId := Company(name)], nextId := s.nextId + 1)
  }

  /** A new company row with an unused name commits exactly when the name is not NULL. */
  lemma NewCompanyCommits(s: Store, name: Name)
    requires Valid(s)
    requires Company(name) !in s.companies.Values
    ensures Valid(NewCompany(s, name)) <==> name.Some?
  {
    if name.Some? {
      NewCompanyValid(s, name, NewCompany(s, name));
    } else {
      assert NewCompany(s, name).companies[s.nextId].name.None?;
    }
  }

  /** The new company row, named and with an unused name, keeps every constraint. */
  lemma NewCompanyValid(s: Store, name: Name, s': Store)
    requires Valid(s) && name.Some? && Company(name) !in s.companies.Values
    requires s' == NewCompany(s, name)
    ensures Valid(s')
  {
    assert CompaniesValid(s') by {
      assert forall i :: i in s.companies ==> s.companies[i] != Company(name);
    }
  }

  /** A company some office, group or host still refers to. */
  predicate CompanyInUse(s: Store, c: Id) {
    || (exists i :: i in s.offices && s.offices[i].companyId == Some(c))
    || (exists i :: i in s.groups && s.groups[i].companyId == Some(c))
    || (exists i :: i in s.hosts && s.hosts[i].companyId == Some(c))
  }

  /** The state flushed by `session.delete(company)`: the row goes and, as the relationships
      declare no delete cascade, every child's `company_id` is set to NULL. */
  function DetachCompany(s: Store, c: Id): Store {
    s.(companies := s.companies - {c},
       offices := map i | i in s.offices ::
         if s.offices[i].companyId == Some(c) then s.offices[i].(companyId := None) else s.offices[i],
       groups := map i | i in s.groups ::
         if s.groups[i].companyId == Some(c) then s.groups[i].(companyId := None) else s.groups[i],
       hosts := map i | i in s.hosts ::
         if s.hosts[i].companyId == Some(c) then s.hosts[i].(companyId := None) else s.hosts[i])
  }

  /** Deleting a company commits exactly when nothing refers to it, and then only its row goes. */
  lemma DetachCompanyCommits(s: Store, c: Id)
    requires Valid(s) && c in s.companies
    ensures Valid(DetachCompany(s, c)) <==> !CompanyInUse(s, c)
    ensures !CompanyInUse(s, c) ==> DetachCompany(s, c) == s.(companies := s.companies - {c})
  {
    if CompanyInUse(s, c) {
      DetachUsedCompanyFails(s, c);
    } else {
      DetachUnusedCompany(s, c);
      RemoveUnusedCompanyValid(s, c, s.(companies := s.companies - {c}));
    }
  }

  /** A child of the company is left with a NULL `company_id`. */
  lemma DetachUsedCompanyFails(s: Store, c: Id)
    requires CompanyInUse(s, c)
    ensures !Valid(DetachCompany(s, c))
  {
    var d := DetachCompany(s, c);
    if i :| i in s.offices && s.offices[i].companyId == Some(c) {
      assert !OfficesValid(d) by { assert d.offices[i].companyId.None?; }
    } else if i :| i in s.groups && s.groups[i].companyId == Some(c) {
      assert !GroupsValid(d) by { assert d.groups[i].companyId.None?; }
    } else {
      var i :| i in s.hosts && s.hosts[i].companyId == Some(c);
      assert !HostsValid(d) by { assert d.hosts[i].companyId.None?; }
    }
  }

  /** With no children, nothing is nulled. */
  lemma DetachUnusedCompany(s: Store, c: Id)
    requires !CompanyInUse(s, c)
    ensures DetachCompany(s, c) == s.(companies := s.companies - {c})
  {
    var d := DetachCompany(s, c);
    assert d.offices == s.offices;
    assert d.groups == s.groups;
    assert d.hosts == s.hosts;
  }

  /** Removing a company nothing refers to keeps every constraint. */
  lemma RemoveUnusedCompanyValid(s: Store, c: Id, s': Store)
    requires Valid(s) && !CompanyInUse(s, c)
    requires s' == s.(companies := s.companies - {c})
    ensures Valid(s')
  {
  }

  /** The state `Office(name=..., company=...)` plus its commit would write. */
  function NewOffice(s: Store, name: Name, c: Id): Store {
    s.(offices := s.offices[s.nextId := Office(name, Some(c))], nextId := s.nextId + 1)
  }

  /** A new office of an existing company, with a name unused in that company, commits
      exactly when the name is not NULL. */
  lemma NewOfficeCommits(s: Store, name: Name, c: Id)
    requires Valid(s) && c in s.companies
    requires Office(name, Some(c)) !in s.offices.Values
    ensures Valid(NewOffice(s, name, c)) <==> name.Some?
  {
    if name.Some? {
      NewOfficeValid(s, name, c, NewOffice(s, name, c));
    } else {
      assert NewOffice(s, name, c).offices[s.nextId].name.None?;
    }
  }

  /** The new office row, named and with a name unused in its company, keeps every constraint. */
  lemma NewOfficeValid(s: Store, name: Name, c: Id, s': Store)
    requires Valid(s) && c in s.companies && name.Some?
    requires Office(name, Some(c)) !in s.offices.Values
    requires s' == NewOffice(s, name, c)
    ensures Valid(s')
  {
    assert OfficesValid(s') by {
      assert forall i :: i in s.offices ==> s.offices[i] != Office(name, Some(c));
    }
  }

  /** An office some group or host still refers to. */
  predicate OfficeInUse(s: Store, o: Id) {
    || (exists i :: i in s.groups && s.groups[i].officeId == Some(o))
    || (exists i :: i in s.hosts && s.hosts[i].officeId == Some(o))
  }

  /** The state flushed by `session.delete(office)`: the row goes and every child's
      `office_id` is set to NULL. */
  function DetachOffice(s: Store, o: Id): Store {
    s.(offices := s.offices - {o},
       groups := map i | i in s.groups ::
         if s.groups[i].officeId == Some(o) then s.groups[i].(officeId := None) else s.groups[i],
       hosts := map i | i in s.hosts ::
         if s.hosts[i].officeId == Some(o) then s.hosts[i].(officeId := None) else s.hosts[i])
  }

  /** Deleting an office commits exactly when nothing refers to it, and then only its row goes. */
  lemma DetachOfficeCommits(s: Store, o: Id)
    requires Valid(s) && o in s.offices
    ensures Valid(DetachOffice(s, o)) <==> !OfficeInUse(s, o)
    ensures !OfficeInUse(s, o) ==> DetachOffice(s, o) == s.(offices := s.offices - {o})
  {
    if OfficeInUse(s, o) {
      DetachUsedOfficeFails(s, o);
    } else {
      DetachUnusedOffice(s, o);
      RemoveUnusedOfficeValid(s, o, s.(offices := s.offices - {o}));
    }
  }

  /** A child of the office is left with a NULL `office_id`. */
  lemma DetachUsedOfficeFails(s: Store, o: Id)
    requires OfficeInUse(s, o)
    ensures !Valid(DetachOffice(s, o))
  {
    var d := DetachOffice(s, o);
    if i :| i in s.groups && s.groups[i].officeId == Some(o) {
      assert !GroupsValid(d) by { assert d.groups[i].officeId.None?; }
    } else {
      var i :| i in s.hosts && s.hosts[i].officeId == Some(o);
      assert !HostsValid(d) by { assert d.hosts[i].officeId.None?; }
    }
  }

  /** With no children, nothing is nulled. */
  lemma DetachUnusedOffice(s: Store, o: Id)
    requires !OfficeInUse(s, o)
    ensures DetachOffice(s, o) == s.(offices := s.offices - {o})
  {
    var d := DetachOffice(s, o);
    assert d.groups == s.groups;
    assert d.hosts == s.hosts;
  }

  /** Removing an office nothing refers to keeps every constraint. */
  lemma RemoveUnusedOfficeValid(s: Store, o: Id, s': Store)
    requires Valid(s) && !OfficeInUse(s, o)
    requires s' == s.(offices := s.offices - {o})
    ensures Valid(s')
  {
  }

  /** The state `Group(name=..., company=..., office=...)` plus its commit would write. */
  function NewGroup(s: Store, name: Name, c: Id, o: Id): Store {
    s.(groups := s.groups[s.nextId := Group(name, Some(c), Some(o))], nextId := s.nextId + 1)
  }

  /** A new group of an existing company and office, with no group of that company bearing
      its name, commits exactly when the name is not NULL. */
  lemma NewGroupCommits(s: Store, name: Name, c: Id, o: Id)
    requires Valid(s) && c in s.companies && o in s.offices
    requires forall i :: i in s.groups && s.groups[i].companyId == Some(c) ==> s.groups[i].name != name
    ensures Valid(NewGroup(s, name, c, o)) <==> name.Some?
  {
    if name.Some? {
      NewGroupValid(s, name, c, o, NewGroup(s, name, c, o));
    } else {
      assert NewGroup(s, name, c, o).groups[s.nextId].name.None?;
    }
  }

  /** The new group row, named and with a name no group of its company has, keeps every
      constraint. */
  lemma NewGroupValid(s: Store, name: Name, c: Id, o: Id, s': Store)
    requires Valid(s) && c in s.companies && o in s.offices && name.Some?
    requires forall i :: i in s.groups && s.groups[i].companyId == Some(c) ==> s.groups[i].name != name
    requires s' == NewGroup(s, name, c, o)
    ensures Valid(s')
  {
    var k := s.nextId;
    forall i, j | i in s'.groups && j in s'.groups && s'.groups[i] == s'.groups[j]
      ensures i == j
    {
      if i != k && j != k {
        assert s.groups[i] == s.groups[j];
      }
    }
  }

  /** The state flushed by `session.delete(group)`: the row and its association rows go. */
  function RemoveGroup(s: Store, g: Id): Store {
    s.(groups := s.groups - {g}, members := set p | p in s.members && p.1 != g)
  }

  /** Nothing but association rows refers to a group, and they go with it. */
  lemma RemoveGroupValid(s: Store, g: Id, s': Store)
    requires Valid(s) && s' == RemoveGroup(s, g)
    ensures Valid(s')
  {
    assert forall i :: i in s'.groups ==> s'.groups[i] == s.groups[i];
    forall p | p in s'.members
      ensures p.0 in s'.hosts && p.1 in s'.groups
    {
      assert p in s.members && p.1 != g;
    }
  }

  /** The state `Host(name, company, office, groups)` plus its commit would write: the host
      row keyed `s.nextId` and one association row per group. */
  function InsertHost(s: Store, host: Host, groupIds: set<Id>): Store {
    s.(hosts := s.hosts[s.nextId := host],
       members := s.members + set g | g in groupIds :: (s.nextId, g),
       nextId := s.nextId + 1)
  }

  /** A new host row commits exactly when its name is not NULL, provided its office is one of
      its company's, no host of that office has its name, and its groups exist. */
  lemma InsertHostCommits(s: Store, host: Host, groupIds: set<Id>)
    requires Valid(s)
    requires host.companyId.Some? && host.companyId.value in s.companies
    requires host.officeId.Some? && host.officeId.value in s.offices
    requires forall i :: i in s.hosts && s.hosts[i].officeId == host.officeId ==> s.hosts[i].name != host.name
    requires forall g :: g in groupIds ==> g in s.groups
    ensures Valid(InsertHost(s, host, groupIds)) <==> host.name.Some?
  {
    var s' := InsertHost(s, host, groupIds);
    if host.name.Some? {
      InsertHostRowValid(s, host, groupIds, s');
      InsertHostMembersValid(s, host, groupIds, s');
      InsertHostValid(s, host, groupIds, s');
    } else {
      assert s'.hosts[s.nextId].name.None?;
    }
  }

  /** The host and association tables decide: the other tables are untouched. */
  lemma InsertHostValid(s: Store, host: Host, groupIds: set<Id>, s': Store)
    requires Valid(s) && s' == InsertHost(s, host, groupIds)
    requires HostsValid(s') && MembersValid(s')
    ensures Valid(s')
  {
  }

  /** The new row keeps the host table's constraints: its (name, company, office) is unused. */
  lemma InsertHostRowValid(s: Store, host: Host, groupIds: set<Id>, s': Store)
    requires Valid(s) && s' == InsertHost(s, host, groupIds)
    requires host.name.Some?
    requires host.companyId.Some? && host.companyId.value in s.companies
    requires host.officeId.Some? && host.officeId.value in s.offices
    requires forall i :: i in s.hosts && s.hosts[i].officeId == host.officeId ==> s.hosts[i].name != host.name
    ensures HostsValid(s')
  {
    var k := s.nextId;
    assert s'.hosts == s.hosts[k := host];
    forall i, j | i in s'.hosts && j in s'.hosts && s'.hosts[i] == s'.hosts[j]
      ensures i == j
    {
      if i != k && j != k {
        assert s.hosts[i] == s.hosts[j];
      }
    }
  }

  /** The new association rows refer to the new host and to existing groups. */
  lemma InsertHostMembersValid(s: Store, host: Host, groupIds: set<Id>, s': Store)
    requires Valid(s) && s' == InsertHost(s, host, groupIds)
    requires forall g :: g in groupIds ==> g in s.groups
    ensures MembersValid(s')
  {
    forall p | p in s'.members
      ensures p.0 in s'.hosts && p.1 in s'.groups
    {
      if p !in s.members {
        var g :| g in groupIds && p == (s.nextId, g);
      }
    }
  }

  /** The association rows after the insert: the old ones and one per group of the new host. */
  lemma InsertHostMembers(s: Store, host: Host, groupIds: set<Id>)
    ensures forall p :: p in InsertHost(s, host, groupIds).members <==> p in s.members || (p.0 == s.nextId && p.1 in groupIds)
  {
    forall p: (Id, Id) | p.0 == s.nextId && p.1 in groupIds
      ensures p in InsertHost(s, host, groupIds).members
    {
      assert p == (s.nextId, p.1);
    }
  }

  /** The state flushed by `session.delete(host)`: the row and its association rows go. */
  function RemoveHost(s: Store, h: Id): Store {
    s.(hosts := s.hosts - {h}, members := set p | p in s.members && p.0 != h)
  }

  /** Nothing but association rows refers to a host, and they go with it. */
  lemma RemoveHostValid(s: Store, h: Id, s': Store)
    requires Valid(s) && s' == RemoveHost(s, h)
    ensures Valid(s')
  {
    assert forall i :: i in s'.hosts ==> s'.hosts[i] == s.hosts[i];
    forall p | p in s'.members
      ensures p.0 in s'.hosts && p.1 in s'.groups
    {
      assert p in s.members && p.0 != h;
    }
  }
}
