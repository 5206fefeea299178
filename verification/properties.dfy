/** Properties relating the manager's operations to one another: what an `add_*` creates its
    `get_*` finds, an `add_*` followed by its `del_*` restores the store, a second `add_*` of the
    same name is refused, and the lookups that ignore the office. */
module Properties {
  import opened Wrappers
  import opened Tables
  import opened Inventory
  import opened Flush
  import opened Manager

  // ---------------------------------------------------------------------------------
  // Companies
  // ---------------------------------------------------------------------------------

  /** `get_company` finds the company `add_company` created. */
  lemma AddCompanyThenGet(s: Store, name: Name)
    requires Valid(s)
    requires AddCompany(s, name).result.Some?
    ensures GetCompany(AddCompany(s, name).store, name) == AddCompany(s, name).result
  {
    var r := AddCompany(s, name);
    var k := r.result.value;
    var i := GetCompany(r.store, name);
    assert r.store.companies[k] == Company(name);
    assert i.Some? && r.store.companies[i.value] == r.store.companies[k];
  }

  /** Adding the same company name twice: the second call returns `None` and changes nothing. */
  lemma AddCompanyTwice(s: Store, name: Name)
    requires Valid(s)
    requires AddCompany(s, name).result.Some?
    ensures var s' := AddCompany(s, name).store;
      AddCompany(s', name) == Step(s', None)
  {
    var r := AddCompany(s, name);
    assert r.store.companies[r.result.value] == Company(name);
  }

  /** `del_company` undoes `add_company`: only the id sequence has moved on. */
  lemma AddCompanyThenDelete(s: Store, name: Name)
    requires Valid(s)
    requires AddCompany(s, name).result.Some?
    ensures DelCompany(AddCompany(s, name).store, name) == s.(nextId := AddCompany(s, name).store.nextId)
  {
    var r := AddCompany(s, name);
    var k := r.result.value;
    assert r.store.companies[k] == Company(name);
    assert !CompanyInUse(r.store, k);
    assert r.store.companies - {k} == s.companies;
  }

  // ---------------------------------------------------------------------------------
  // Offices
  // ---------------------------------------------------------------------------------

  /** `get_office` finds the office `add_office` created, when both names are given. */
  lemma AddOfficeThenGet(s: Store, officeName: Name, companyName: Name)
    requires Valid(s) && Truthy(officeName) && Truthy(companyName)
    requires AddOffice(s, officeName, companyName).result.Some?
    ensures GetOffice(AddOffice(s, officeName, companyName).store, officeName, companyName) == AddOffice(s, officeName, companyName).result
  {
    var r := AddOffice(s, officeName, companyName);
    var k := r.result.value;
    assert GetCompany(r.store, companyName) == GetCompany(s, companyName);
    var i := GetOffice(r.store, officeName, companyName);
    assert r.store.offices[k] == Office(officeName, GetCompany(s, companyName));
    assert i.Some? && r.store.offices[i.value] == r.store.offices[k];
  }

  /** The same office name is accepted under a second company that has no office of that name
      (unless both of the second call's names are empty, which `add_office` refuses). */
  lemma AddOfficeOtherCompany(s: Store, officeName: Name, companyName: Name, otherName: Name)
    requires Valid(s) && (Truthy(officeName) || Truthy(otherName))
    requires AddOffice(s, officeName, companyName).result.Some?
    requires GetCompany(s, otherName).Some? && GetCompany(s, otherName) != GetCompany(s, companyName)
    requires Office(officeName, GetCompany(s, otherName)) !in s.offices.Values
    ensures AddOffice(AddOffice(s, officeName, companyName).store, officeName, otherName).result.Some?
  {
    var s' := AddOffice(s, officeName, companyName).store;
    assert GetCompany(s', otherName) == GetCompany(s, otherName);
  }

  /** A second `add_office` with the same names returns `None` and changes nothing. */
  lemma AddOfficeTwice(s: Store, officeName: Name, companyName: Name)
    requires Valid(s)
    requires AddOffice(s, officeName, companyName).result.Some?
    ensures var s' := AddOffice(s, officeName, companyName).store;
      AddOffice(s', officeName, companyName) == Step(s', None)
  {
    var r := AddOffice(s, officeName, companyName);
    assert GetCompany(r.store, companyName) == GetCompany(s, companyName);
    assert r.store.offices[r.result.value] == Office(officeName, GetCompany(s, companyName));
  }

  /** `get_offices` lists the office `add_office` created beside the company's earlier ones. */
  lemma AddOfficeThenGetOffices(s: Store, officeName: Name, companyName: Name)
    requires Valid(s) && Truthy(companyName)
    requires AddOffice(s, officeName, companyName).result.Some?
    ensures var r := AddOffice(s, officeName, companyName);
      && GetOffices(s, companyName).Some?
      && GetOffices(r.store, companyName).Some?
      && forall i :: i in GetOffices(r.store, companyName).value <==> i in GetOffices(s, companyName).value || i == r.result.value
  {
    var r := AddOffice(s, officeName, companyName);
    assert GetCompany(r.store, companyName) == GetCompany(s, companyName);
  }

  /** `del_office` undoes `add_office` when both names are given and no office of any company
      had the name, so that the delete's lookup finds exactly the new one. */
  lemma AddOfficeThenDelete(s: Store, officeName: Name, companyName: Name, r: Step)
    requires Valid(s) && Truthy(officeName) && Truthy(companyName)
    requires r == AddOffice(s, officeName, companyName) && r.result.Some?
    requires forall i :: i in s.offices ==> s.offices[i].name != officeName
    ensures OfficeNameUnique(r.store, officeName)
    ensures DelOffice(r.store, officeName, companyName) == s.(nextId := r.store.nextId)
  {
    var k := r.result.value;
    assert r.store.offices[k].name == officeName;
    assert CompanyNamed(r.store, companyName) by {
      assert r.store.companies == s.companies;
      assert s.companies[GetCompany(s, companyName).value] == Company(companyName);
    }
    DelOnlyOffice(s, r.store, k, r.store.offices[k], officeName, companyName);
  }

  /** `del_office` on a store holding one more office than `s`, unreferenced and the only one
      with its name, gives back `s` with the later id sequence. */
  lemma DelOnlyOffice(s: Store, s': Store, k: Id, o: Office, officeName: Name, companyName: Name)
    requires Valid(s) && Valid(s')
    requires k !in s.offices && s' == s.(offices := s.offices[k := o], nextId := s'.nextId)
    requires o.name == officeName && OfficeNameUnique(s', officeName)
    requires Truthy(officeName) && Truthy(companyName) && CompanyNamed(s', companyName)
    ensures DelOffice(s', officeName, companyName) == s.(nextId := s'.nextId)
  {
    RemoveAdded(s.offices, k, o);
    assert !OfficeInUse(s', k) by {
      assert forall i :: i in s.groups ==> s.groups[i].officeId.value in s.offices;
      assert forall i :: i in s.hosts ==> s.hosts[i].officeId.value in s.offices;
    }
  }

  // ---------------------------------------------------------------------------------
  // Groups
  // ---------------------------------------------------------------------------------

  /** A group `add_group` creates lies in the named office, and that office belongs to the
      group's company. */
  lemma AddGroupInOwnOffice(s: Store, groupName: Name, companyName: Name, officeName: Name)
    requires Valid(s)
    requires AddGroup(s, groupName, companyName, officeName).result.Some?
    ensures var r := AddGroup(s, groupName, companyName, officeName);
      var g := r.store.groups[r.result.value];
      && g.officeId == GetOffice(s, officeName, companyName)
      && r.store.offices[g.officeId.value].companyId == g.companyId
      && r.store.offices[g.officeId.value].name == officeName
  {
  }

  /** `get_group` finds the group `add_group` created. */
  lemma AddGroupThenGet(s: Store, groupName: Name, companyName: Name, officeName: Name)
    requires Valid(s)
    requires AddGroup(s, groupName, companyName, officeName).result.Some?
    requires Truthy(groupName)
    ensures GetGroup(AddGroup(s, groupName, companyName, officeName).store, groupName, companyName, officeName)
      == AddGroup(s, groupName, companyName, officeName).result
  {
    var r := AddGroup(s, groupName, companyName, officeName);
    var k := r.result.value;
    var s' := r.store;
    assert GetCompany(s', companyName) == GetCompany(s, companyName);
    assert GetOffice(s', officeName, companyName) == GetOffice(s, officeName, companyName) by {
      assert s'.offices == s.offices;
    }
    var i := GetGroup(s', groupName, companyName, officeName);
    assert s'.groups[k].companyId == GetCompany(s, companyName) && s'.groups[k].name == groupName;
    assert i.Some?;
  }

  /** `get_group` only needs the office to exist: any two existing offices of the company give
      the same answer. */
  lemma GetGroupIgnoresOffice(s: Store, groupName: Name, companyName: Name, office1: Name, office2: Name)
    requires Valid(s)
    requires GetOffice(s, office1, companyName).Some? && GetOffice(s, office2, companyName).Some?
    ensures GetGroup(s, groupName, companyName, office1) == GetGroup(s, groupName, companyName, office2)
  {
  }

  /** `get_groups` after a successful `add_group` lists the company's earlier groups and the
      new one. */
  lemma AddGroupThenGetGroups(s: Store, groupName: Name, companyName: Name, officeName: Name)
    requires Valid(s)
    requires AddGroup(s, groupName, companyName, officeName).result.Some?
    ensures var r := AddGroup(s, groupName, companyName, officeName);
      && GetGroups(s, companyName, officeName).Some?
      && GetGroups(r.store, companyName, officeName).Some?
      && forall i :: i in GetGroups(r.store, companyName, officeName).value <==> i in GetGroups(s, companyName, officeName).value || i == r.result.value
  {
    var r := AddGroup(s, groupName, companyName, officeName);
    assert GetCompany(r.store, companyName) == GetCompany(s, companyName);
    assert GetOffice(r.store, officeName, companyName) == GetOffice(s, officeName, companyName);
  }

  /** `get_groups` only needs the office to exist: any two existing offices of the company give
      the same list, the company's groups. */
  lemma GetGroupsIgnoresOffice(s: Store, companyName: Name, office1: Name, office2: Name)
    requires Valid(s)
    requires GetOffice(s, office1, companyName).Some? && GetOffice(s, office2, companyName).Some?
    ensures GetGroups(s, companyName, office1) == GetGroups(s, companyName, office2)
  {
  }

  /** A group name used in one office of a company is refused in every other office of it. */
  lemma AddGroupOtherOfficeRefused(s: Store, groupName: Name, companyName: Name, officeName: Name, otherOffice: Name)
    requires Valid(s)
    requires AddGroup(s, groupName, companyName, officeName).result.Some?
    ensures var s' := AddGroup(s, groupName, companyName, officeName).store;
      AddGroup(s', groupName, companyName, otherOffice) == Step(s', None)
  {
    var r := AddGroup(s, groupName, companyName, officeName);
    var k := r.result.value;
    assert GetCompany(r.store, companyName) == GetCompany(s, companyName);
    assert r.store.groups[k].companyId == GetCompany(s, companyName) && r.store.groups[k].name == groupName;
  }

  /** `del_group` undoes `add_group` when no other group anywhere has the name, so that the
      delete's lookup finds exactly the new one. */
  lemma AddGroupThenDelete(s: Store, groupName: Name, companyName: Name, officeName: Name, r: Step)
    requires Valid(s)
    requires r == AddGroup(s, groupName, companyName, officeName) && r.result.Some?
    requires forall i :: i in s.groups ==> s.groups[i].name != groupName
    ensures GroupNameUnique(r.store, groupName)
    ensures DelGroup(r.store, groupName, companyName, officeName) == s.(nextId := r.store.nextId)
  {
    AddedGroupUnique(s, groupName, companyName, officeName, r);
    AddedGroupParentsNamed(s, groupName, companyName, officeName, r);
    var k := r.result.value;
    DelOnlyGroup(s, r.store, k, r.store.groups[k], groupName, companyName, officeName);
  }

  /** `del_group` on a store holding one more group than `s`, the only one with its name,
      gives back `s` with the later id sequence. */
  lemma DelOnlyGroup(s: Store, s': Store, k: Id, g: Group, groupName: Name, companyName: Name, officeName: Name)
    requires MembersValid(s) && Valid(s')
    requires k !in s.groups && s' == s.(groups := s.groups[k := g], nextId := s'.nextId)
    requires g.name == groupName && GroupNameUnique(s', groupName)
    requires Truthy(officeName) && Truthy(companyName) && CompanyNamed(s', companyName) && OfficeNamed(s', officeName)
    ensures DelGroup(s', groupName, companyName, officeName) == s.(nextId := s'.nextId)
  {
    RemoveAdded(s.groups, k, g);
    var d := DelGroup(s', groupName, companyName, officeName);
    assert d == s'.(groups := s'.groups - {k}, members := d.members);
    assert d.members == s.members by {
      forall p | p in s.members
        ensures p.1 != k
      {
        assert p.1 in s.groups;
      }
    }
  }

  /** After `add_group` of a name no group had, the new group is the only one with that name. */
  lemma AddedGroupUnique(s: Store, groupName: Name, companyName: Name, officeName: Name, r: Step)
    requires Valid(s)
    requires r == AddGroup(s, groupName, companyName, officeName) && r.result.Some?
    requires forall i :: i in s.groups ==> s.groups[i].name != groupName
    ensures r.result.value in r.store.groups && r.store.groups[r.result.value].name == groupName
    ensures GroupNameUnique(r.store, groupName)
  {
  }

  /** After `add_group`, the company and office names it was given are in use. */
  lemma AddedGroupParentsNamed(s: Store, groupName: Name, companyName: Name, officeName: Name, r: Step)
    requires Valid(s)
    requires r == AddGroup(s, groupName, companyName, officeName) && r.result.Some?
    ensures Truthy(officeName) && Truthy(companyName) && CompanyNamed(r.store, companyName) && OfficeNamed(r.store, officeName)
  {
    var o := GetOffice(s, officeName, companyName).value;
    assert r.store.companies == s.companies && r.store.offices == s.offices;
    assert s.companies[GetCompany(s, companyName).value] == Company(companyName);
    assert s.offices[o].name == officeName;
  }

  // ---------------------------------------------------------------------------------
  // Hosts
  // ---------------------------------------------------------------------------------

  /** `add_host` with no group names returns `None` and changes nothing. */
  lemma AddHostNoGroups(s: Store, hostName: Name, companyName: Name, officeName: Name)
    requires Valid(s) && Truthy(companyName)
    ensures AddHost(s, hostName, companyName, officeName, []) == Step(s, None)
  {
  }

  /** `add_host` for a name the office already has returns `None` and changes nothing. */
  lemma AddHostTwice(s: Store, hostName: Name, companyName: Name, officeName: Name, groupNames: seq<string>)
    requires Valid(s) && Truthy(companyName)
    requires AddHost(s, hostName, companyName, officeName, groupNames).result.Some?
    ensures var s' := AddHost(s, hostName, companyName, officeName, groupNames).store;
      forall names: seq<string> :: AddHost(s', hostName, companyName, officeName, names) == Step(s', None)
  {
    var r := AddHost(s, hostName, companyName, officeName, groupNames);
    var k := r.result.value;
    assert GetCompany(r.store, companyName) == GetCompany(s, companyName);
    assert GetOffice(r.store, officeName, companyName) == GetOffice(s, officeName, companyName) by {
      assert r.store.offices == s.offices;
    }
    assert r.store.hosts[k].officeId == GetOffice(s, officeName, companyName) && r.store.hosts[k].name == hostName;
  }

  /** `get_host` finds the host `add_host` created. */
  lemma AddHostThenGet(s: Store, hostName: Name, companyName: Name, officeName: Name, groupNames: seq<string>)
    requires Valid(s) && Truthy(companyName)
    requires AddHost(s, hostName, companyName, officeName, groupNames).result.Some?
    ensures var r := AddHost(s, hostName, companyName, officeName, groupNames);
      GetOffice(r.store, officeName, companyName).Some?
      && GetHost(r.store, hostName, companyName, officeName) == r.result
  {
    var r := AddHost(s, hostName, companyName, officeName, groupNames);
    var k := r.result.value;
    var s' := r.store;
    assert GetCompany(s', companyName) == GetCompany(s, companyName);
    assert GetOffice(s', officeName, companyName) == GetOffice(s, officeName, companyName) by {
      assert s'.offices == s.offices;
    }
    var i := GetHost(s', hostName, companyName, officeName);
    assert s'.hosts[k].officeId == GetOffice(s, officeName, companyName) && s'.hosts[k].name == hostName;
    assert i.Some?;
  }

  /** `get_hosts` lists the host `add_host` created beside the office's earlier ones. */
  lemma AddHostThenGetHosts(s: Store, hostName: Name, companyName: Name, officeName: Name, groupNames: seq<string>)
    requires Valid(s) && Truthy(companyName)
    requires AddHost(s, hostName, companyName, officeName, groupNames).result.Some?
    ensures var r := AddHost(s, hostName, companyName, officeName, groupNames);
      && GetHosts(s, companyName, officeName).Some?
      && GetHosts(r.store, companyName, officeName).Some?
      && forall i :: i in GetHosts(r.store, companyName, officeName).value <==>
           i in GetHosts(s, companyName, officeName).value || i == r.result.value
  {
    var r := AddHost(s, hostName, companyName, officeName, groupNames);
    assert GetCompany(r.store, companyName) == GetCompany(s, companyName);
    assert GetOffice(r.store, officeName, companyName) == GetOffice(s, officeName, companyName) by {
      assert r.store.offices == s.offices;
    }
  }

  /** `del_host` undoes `add_host`, association rows included, when no host anywhere had the
      name, so that the delete's lookup finds exactly the new one. */
  lemma AddHostThenDelete(s: Store, hostName: Name, companyName: Name, officeName: Name, groupNames: seq<string>, r: Step)
    requires Valid(s) && Truthy(companyName)
    requires r == AddHost(s, hostName, companyName, officeName, groupNames) && r.result.Some?
    requires forall i :: i in s.hosts ==> s.hosts[i].name != hostName
    ensures HostNameUnique(r.store, hostName)
    ensures DelHost(r.store, hostName, companyName, officeName) == s.(nextId := r.store.nextId)
  {
    var k := r.result.value;
    AddedHostParentsNamed(s, hostName, companyName, officeName, groupNames, r);
    AddedHostShape(s, hostName, companyName, officeName, groupNames, r);
    DelOnlyHost(s, r.store, k, r.store.hosts[k], hostName, companyName, officeName);
  }

  /** After `add_host` of a name no host had, the new host is the only one with it, and the
      association table gained rows for that host only. */
  lemma AddedHostShape(s: Store, hostName: Name, companyName: Name, officeName: Name, groupNames: seq<string>, r: Step)
    requires Valid(s) && Truthy(companyName)
    requires r == AddHost(s, hostName, companyName, officeName, groupNames) && r.result.Some?
    requires forall i :: i in s.hosts ==> s.hosts[i].name != hostName
    ensures var k := r.result.value;
      && k !in s.hosts && k in r.store.hosts && r.store.hosts[k].name == hostName
      && r.store == s.(hosts := s.hosts[k := r.store.hosts[k]], members := r.store.members, nextId := r.store.nextId)
      && (forall p :: p in r.store.members ==> p in s.members || p.0 == k)
      && s.members <= r.store.members
      && HostNameUnique(r.store, hostName)
  {
  }

  /** After `add_host`, the company and office names it was given are in use. */
  lemma AddedHostParentsNamed(s: Store, hostName: Name, companyName: Name, officeName: Name, groupNames: seq<string>, r: Step)
    requires Valid(s) && Truthy(companyName)
    requires r == AddHost(s, hostName, companyName, officeName, groupNames) && r.result.Some?
    ensures Truthy(officeName) && CompanyNamed(r.store, companyName) && OfficeNamed(r.store, officeName)
  {
    var o := GetOffice(s, officeName, companyName).value;
    assert r.store.companies == s.companies && r.store.offices == s.offices;
    assert s.companies[GetCompany(s, companyName).value] == Company(companyName);
    assert s.offices[o].name == officeName;
  }

  /** `del_host` on a store holding one more host than `s`, the only one with its name, and
      association rows only for that host, gives back `s` with the later id sequence. */
  lemma DelOnlyHost(s: Store, s': Store, k: Id, h: Host, hostName: Name, companyName: Name, officeName: Name)
    requires MembersValid(s) && Valid(s')
    requires k !in s.hosts && s' == s.(hosts := s.hosts[k := h], members := s'.members, nextId := s'.nextId)
    requires forall p :: p in s'.members ==> p in s.members || p.0 == k
    requires s.members <= s'.members
    requires h.name == hostName && HostNameUnique(s', hostName)
    requires Truthy(officeName) && Truthy(companyName) && CompanyNamed(s', companyName) && OfficeNamed(s', officeName)
    ensures DelHost(s', hostName, companyName, officeName) == s.(nextId := s'.nextId)
  {
    RemoveAdded(s.hosts, k, h);
    var d := DelHost(s', hostName, companyName, officeName);
    assert d == s'.(hosts := s'.hosts - {k}, members := d.members);
    assert d.members == s.members by {
      forall p | p in s.members
        ensures p.0 != k
      {
        assert p.0 in s.hosts;
      }
    }
  }
}
