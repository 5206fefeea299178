/** The inventory manager: the add/get/delete operations over the store. Each mutating
    operation checks its parents and its name first, then builds the new state and commits;
    a commit that breaks a declared constraint is rolled back. */
module Manager {
  import opened Wrappers
  import opened Tables
  import opened Inventory
  import opened Flush

  /** What an `add_*` call leaves behind: the store after commit or rollback, and the key of
      the record it returned, or `None`. */
  datatype Step = Step(store: Store, result: Option<Id>)

  /** `session.commit()`: the new state is kept when it meets every declared constraint;
      otherwise the handler's `session.rollback()` restores the old one. */
  function Commit(s: Store, s': Store): (r: Store)
    ensures Valid(s) ==> Valid(r)
    ensures Valid(s') ==> r == s'
    ensures !Valid(s') ==> r == s
  {
    if Valid(s') then s' else s
  }

  /** Commit of a state holding one new record keyed `s.nextId`, which the call returns. */
  function CommitNew(s: Store, s': Store): (r: Step)
    ensures Valid(s) ==> Valid(r.store)
    ensures r.result.Some? <==> Valid(s')
    ensures r.result.Some? ==> r.store == s' && r.result.value == s.nextId
    ensures r.result.None? ==> r.store == s
  {
    if Valid(s') then Step(s', Some(s.nextId)) else Step(s, None)
  }

  // ---------------------------------------------------------------------------------
  // Lookups
  // ---------------------------------------------------------------------------------

  /** `get_company`: the company with that name, or `None`. */
  function GetCompany(s: Store, name: Name): (r: Option<Id>)
    requires Valid(s)
    ensures r.Some? <==> Company(name) in s.companies.Values
    ensures r.Some? ==> r.value in s.companies && s.companies[r.value] == Company(name)
  {
    FirstWhere(s.companies, (i: Id, co: Company) => co.name == name, s.nextId)
  }

  /** `get_office`: both names must be given; the office with that name under that company. */
  function GetOffice(s: Store, officeName: Name, companyName: Name): (r: Option<Id>)
    requires Valid(s)
    ensures r.Some? <==>
      && Truthy(officeName) && Truthy(companyName)
      && GetCompany(s, companyName).Some?
      && Office(officeName, GetCompany(s, companyName)) in s.offices.Values
    ensures r.Some? ==> r.value in s.offices && s.offices[r.value] == Office(officeName, GetCompany(s, companyName))
  {
    if !Truthy(officeName) || !Truthy(companyName) then None
    else match GetCompany(s, companyName)
      case None => None
      case Some(c) => FirstWhere(s.offices, (i: Id, of: Office) => of == Office(officeName, Some(c)), s.nextId)
  }

  /** `get_offices`: every office of the named company. */
  function GetOffices(s: Store, companyName: Name): (r: Option<seq<Id>>)
    requires Valid(s)
    ensures r.Some? <==> Truthy(companyName) && GetCompany(s, companyName).Some?
    ensures r.Some? ==> forall i :: i in r.value <==> i in s.offices && s.offices[i].companyId == GetCompany(s, companyName)
  {
    if !Truthy(companyName) then None
    else match GetCompany(s, companyName)
      case None => None
      case Some(c) => Some(CompanyOffices(s, c))
  }

  /** `get_group`: the office must exist, but the group is looked up among ALL of the company's
      groups, in any office. */
  function GetGroup(s: Store, groupName: Name, companyName: Name, officeName: Name): (r: Option<Id>)
    requires Valid(s)
    ensures r.Some? <==>
      && Truthy(groupName)
      && GetOffice(s, officeName, companyName).Some?
      && exists i :: i in s.groups && s.groups[i].companyId == GetCompany(s, companyName) && s.groups[i].name == groupName
    ensures r.Some? ==>
      && r.value in s.groups
      && s.groups[r.value].name == groupName
      && s.groups[r.value].companyId == GetCompany(s, companyName)
  {
    if !Truthy(groupName) || !Truthy(companyName) then None
    else match GetCompany(s, companyName)
      case None => None
      case Some(c) =>
        if GetOffice(s, officeName, companyName).None? then None
        else FirstWhere(s.groups, (i: Id, g: Group) => g.companyId == Some(c) && g.name == groupName, s.nextId)
  }

  /** `get_groups`: the office must exist, but the result is every group of the company. */
  function GetGroups(s: Store, companyName: Name, officeName: Name): (r: Option<seq<Id>>)
    requires Valid(s)
    ensures r.Some? <==> GetOffice(s, officeName, companyName).Some?
    ensures r.Some? ==> forall i :: i in r.value <==> i in s.groups && s.groups[i].companyId == GetCompany(s, companyName)
  {
    match GetCompany(s, companyName)
    case None => None
    case Some(c) =>
      if GetOffice(s, officeName, companyName).None? then None
      else Some(CompanyGroups(s, c))
  }

  /** `get_hosts`: the hosts of the named office of the named company. */
  function GetHosts(s: Store, companyName: Name, officeName: Name): (r: Option<seq<Id>>)
    requires Valid(s)
    ensures r.Some? <==> GetOffice(s, officeName, companyName).Some?
    ensures r.Some? ==> forall i :: i in r.value <==> i in s.hosts && s.hosts[i].officeId == GetOffice(s, officeName, companyName)
  {
    if !Truthy(companyName) then None
    else match GetCompany(s, companyName)
      case None => None
      case Some(c) =>
        match GetOffice(s, officeName, companyName)
        case None => None
        case Some(o) => Some(OfficeHosts(s, o))
  }

  /** `get_host`: the first host of the office's hosts with that name. The source iterates the
      result of `get_hosts`, which raises when that is `None`: hence the precondition. */
  function GetHost(s: Store, hostName: Name, companyName: Name, officeName: Name): (r: Option<Id>)
    requires Valid(s)
    requires GetOffice(s, officeName, companyName).Some?
    ensures r.Some? <==> exists i :: i in s.hosts && s.hosts[i].officeId == GetOffice(s, officeName, companyName) && s.hosts[i].name == hostName
    ensures r.Some? ==>
      && r.value in s.hosts
      && s.hosts[r.value].name == hostName
      && s.hosts[r.value].officeId == GetOffice(s, officeName, companyName)
  {
    var o := GetOffice(s, officeName, companyName).value;
    FirstWhere(s.hosts, (i: Id, h: Host) => h.officeId == Some(o) && h.name == hostName, s.nextId)
  }

  // ---------------------------------------------------------------------------------
  // Companies
  // ---------------------------------------------------------------------------------

  /** `add_company`: `None` with the store unchanged when the name is taken; a NULL name fails
      at commit; otherwise exactly one new company with that name. */
  function AddCompany(s: Store, name: Name): (r: Step)
    requires Valid(s)
    ensures Valid(r.store)
    ensures r.result.Some? <==> name.Some? && Company(name) !in s.companies.Values
    ensures r.result.None? ==> r.store == s
    ensures r.result.Some? ==>
      var k := r.result.value;
      && k !in s.companies
      && r.store == s.(companies := s.companies[k := Company(name)], nextId := k + 1)
  {
    if GetCompany(s, name).Some? then Step(s, None)
    else
      NewCompanyCommits(s, name);
      CommitNew(s, NewCompany(s, name))
  }

  /** `del_company`: a no-op when no company has the name; otherwise the delete commits only if
      nothing refers to the company, and then removes its row and nothing else. */
  function DelCompany(s: Store, name: Name): (r: Store)
    requires Valid(s)
    ensures Valid(r)
    ensures Company(name) !in s.companies.Values ==> r == s
    ensures forall c :: c in s.companies && s.companies[c] == Company(name) ==>
      r == if CompanyInUse(s, c) then s else s.(companies := s.companies - {c})
  {
    match GetCompany(s, name)
    case None => s
    case Some(c) =>
      DetachCompanyCommits(s, c);
      Commit(s, DetachCompany(s, c))
  }

  // ---------------------------------------------------------------------------------
  // Offices
  // ---------------------------------------------------------------------------------

  /** `add_office`: gives up only when BOTH names are falsy; then needs the company, and an
      office name not used by another office of that company; a NULL name fails at commit. */
  function AddOffice(s: Store, officeName: Name, companyName: Name): (r: Step)
    requires Valid(s)
    ensures Valid(r.store)
    ensures r.result.Some? <==>
      && (Truthy(officeName) || Truthy(companyName))
      && GetCompany(s, companyName).Some?
      && officeName.Some?
      && Office(officeName, GetCompany(s, companyName)) !in s.offices.Values
    ensures r.result.None? ==> r.store == s
    ensures r.result.Some? ==>
      var k := r.result.value;
      && k !in s.offices
      && r.store == s.(offices := s.offices[k := Office(officeName, GetCompany(s, companyName))], nextId := k + 1)
  {
    if !Truthy(officeName) && !Truthy(companyName) then Step(s, None)
    else match GetCompany(s, companyName)
      case None => Step(s, None)
      case Some(c) =>
        var dup := FirstWhere(s.offices, (i: Id, of: Office) => of.companyId == Some(c) && of.name == officeName, s.nextId);
        if dup.Some? then
          assert s.offices[dup.value] == Office(officeName, Some(c));
          Step(s, None)
        else
          NewOfficeCommits(s, officeName, c);
          CommitNew(s, NewOffice(s, officeName, c))
  }

  /** Some company is named `name`. */
  predicate CompanyNamed(s: Store, name: Name) {
    Company(name) in s.companies.Values
  }

  /** Some office, of any company, is named `name`. */
  predicate OfficeNamed(s: Store, name: Name) {
    exists i :: i in s.offices && s.offices[i].name == name
  }

  /** At most one office, across all companies, is named `name`. */
  predicate OfficeNameUnique(s: Store, name: Name) {
    forall i, j :: i in s.offices && j in s.offices && s.offices[i].name == name && s.offices[j].name == name ==> i == j
  }

  /** `del_office`. The lookup filters on `Office.name` and `Company.name` with no join
      condition, so it matches every office with that name, in any company, as long as some
      company has the given name; `one_or_none` raises when it matches more than one. */
  function DelOffice(s: Store, officeName: Name, companyName: Name): (r: Store)
    requires Valid(s)
    requires Truthy(officeName) && Truthy(companyName) && CompanyNamed(s, companyName) ==> OfficeNameUnique(s, officeName)
    ensures Valid(r)
    ensures !Truthy(officeName) || !Truthy(companyName) || !CompanyNamed(s, companyName) || !OfficeNamed(s, officeName) ==> r == s
    ensures forall o :: o in s.offices && s.offices[o].name == officeName && Truthy(officeName) && Truthy(companyName) && CompanyNamed(s, companyName) ==>
      r == if OfficeInUse(s, o) then s else s.(offices := s.offices - {o})
  {
    if !Truthy(officeName) || !Truthy(companyName) || GetCompany(s, companyName).None? then s
    else match FirstWhere(s.offices, (i: Id, of: Office) => of.name == officeName, s.nextId)
      case None => s
      case Some(o) =>
        DetachOfficeCommits(s, o);
        Commit(s, DetachOffice(s, o))
  }

  // ---------------------------------------------------------------------------------
  // Groups
  // ---------------------------------------------------------------------------------

  /** `add_group`: needs the company and the office under it; the duplicate check scans every
      group of the company, in any office; a NULL name fails at commit. */
  function AddGroup(s: Store, groupName: Name, companyName: Name, officeName: Name): (r: Step)
    requires Valid(s)
    ensures Valid(r.store)
    ensures r.result.Some? <==>
      && GetOffice(s, officeName, companyName).Some?
      && groupName.Some?
      && forall i :: i in s.groups && s.groups[i].companyId == GetCompany(s, companyName) ==> s.groups[i].name != groupName
    ensures r.result.None? ==> r.store == s
    ensures r.result.Some? ==>
      var k := r.result.value;
      && k !in s.groups
      && r.store == s.(groups := s.groups[k := Group(groupName, GetCompany(s, companyName), GetOffice(s, officeName, companyName))], nextId := k + 1)
  {
    match GetCompany(s, companyName)
    case None => Step(s, None)
    case Some(c) =>
      match GetOffice(s, officeName, companyName)
      case None => Step(s, None)
      case Some(o) =>
        var dup := FirstWhere(s.groups, (i: Id, g: Group) => g.companyId == Some(c) && g.name == groupName, s.nextId);
        if dup.Some? then Step(s, None)
        else
          NewGroupCommits(s, groupName, c, o);
          CommitNew(s, NewGroup(s, groupName, c, o))
  }

  /** Some group, of any company and office, is named `name`, at most one. */
  predicate GroupNameUnique(s: Store, name: Name) {
    forall i, j :: i in s.groups && j in s.groups && s.groups[i].name == name && s.groups[j].name == name ==> i == j
  }

  /** `del_group`. The lookup filters on the group, office and company names with no join
      condition: it matches every group with that name as long as some office has the office
      name and some company the company name. */
  function DelGroup(s: Store, groupName: Name, companyName: Name, officeName: Name): (r: Store)
    requires Valid(s)
    requires Truthy(officeName) && Truthy(companyName) && CompanyNamed(s, companyName) && OfficeNamed(s, officeName) ==> GroupNameUnique(s, groupName)
    ensures Valid(r)
    ensures !Truthy(officeName) || !Truthy(companyName) || !CompanyNamed(s, companyName) || !OfficeNamed(s, officeName) ==> r == s
    ensures (forall i :: i in s.groups ==> s.groups[i].name != groupName) ==> r == s
    ensures forall g :: g in s.groups && s.groups[g].name == groupName && Truthy(officeName) && Truthy(companyName) && CompanyNamed(s, companyName) && OfficeNamed(s, officeName) ==>
      && r == s.(groups := s.groups - {g}, members := r.members)
      && forall p :: p in r.members <==> p in s.members && p.1 != g
  {
    if !Truthy(officeName) || !Truthy(companyName) || GetCompany(s, companyName).None? then s
    else if FirstWhere(s.offices, (i: Id, of: Office) => of.name == officeName, s.nextId).None? then s
    else match FirstWhere(s.groups, (i: Id, gr: Group) => gr.name == groupName, s.nextId)
      case None => s
      case Some(g) =>
        RemoveGroupValid(s, g, RemoveGroup(s, g));
        Commit(s, RemoveGroup(s, g))
  }

  // ---------------------------------------------------------------------------------
  // Hosts
  // ---------------------------------------------------------------------------------

  /** `grp.name in group_names` */
  predicate NamedIn(name: Name, groupNames: seq<string>) {
    name.Some? && name.value in groupNames
  }

  /** `add_host`. A falsy company name reaches a call of the logger object itself, which
      raises: hence the precondition. Needs the company, the office under it, a non-empty
      `group_names` and a host name unused in the office; then EVERY group of the office must
      be named in `group_names` (names that match no group are ignored), and the new host joins
      exactly the office's groups. */
  function AddHost(s: Store, hostName: Name, companyName: Name, officeName: Name, groupNames: seq<string>): (r: Step)
    requires Valid(s)
    requires Truthy(companyName)
    ensures Valid(r.store)
    ensures r.result.Some? <==>
      && GetOffice(s, officeName, companyName).Some?
      && |groupNames| > 0
      && hostName.Some?
      && (forall i :: i in s.hosts && s.hosts[i].officeId == GetOffice(s, officeName, companyName) ==> s.hosts[i].name != hostName)
      && (forall g :: g in s.groups && s.groups[g].officeId == GetOffice(s, officeName, companyName) ==> NamedIn(s.groups[g].name, groupNames))
    ensures r.result.None? ==> r.store == s
    ensures r.result.Some? ==>
      var k := r.result.value;
      && k !in s.hosts
      && r.store == s.(hosts := s.hosts[k := Host(hostName, GetCompany(s, companyName), GetOffice(s, officeName, companyName))], members := r.store.members, nextId := k + 1)
      && forall p :: p in r.store.members <==>
           p in s.members || (p.0 == k && p.1 in s.groups && s.groups[p.1].officeId == GetOffice(s, officeName, companyName))
  {
    match GetCompany(s, companyName)
    case None => Step(s, None)
    case Some(c) =>
      match GetOffice(s, officeName, companyName)
      case None => Step(s, None)
      case Some(o) =>
        if |groupNames| == 0 then Step(s, None)
        else if GetHost(s, hostName, companyName, officeName).Some? then Step(s, None)
        else
          var officeGroups := OfficeGroups(s, o);
          if exists k :: 0 <= k < |officeGroups| && !NamedIn(s.groups[officeGroups[k]].name, groupNames) then
            Step(s, None)
          else
            assert forall g :: g in s.groups && s.groups[g].officeId == Some(o) ==> NamedIn(s.groups[g].name, groupNames) by {
              forall g | g in s.groups && s.groups[g].officeId == Some(o)
                ensures NamedIn(s.groups[g].name, groupNames)
              {
                var k :| 0 <= k < |officeGroups| && officeGroups[k] == g;
              }
            }
            CreateHost(s, hostName, c, o, OfficeGroupSet(s, o))
  }

  /** `Host(name, company, office, groups=...)` plus its commit: the new host joins the groups
      `groupIds`; only a NULL name can make the commit fail. */
  function CreateHost(s: Store, hostName: Name, c: Id, o: Id, groupIds: set<Id>): (r: Step)
    requires Valid(s) && c in s.companies && o in s.offices
    requires forall i :: i in s.hosts && s.hosts[i].officeId == Some(o) ==> s.hosts[i].name != hostName
    requires forall g :: g in groupIds ==> g in s.groups
    ensures Valid(r.store)
    ensures r.result.Some? <==> hostName.Some?
    ensures r.result.None? ==> r.store == s
    ensures r.result.Some? ==>
      var k := r.result.value;
      && k !in s.hosts
      && r.store == s.(hosts := s.hosts[k := Host(hostName, Some(c), Some(o))], members := r.store.members, nextId := k + 1)
      && forall p :: p in r.store.members <==> p in s.members || (p.0 == k && p.1 in groupIds)
  {
    var host := Host(hostName, Some(c), Some(o));
    InsertHostCommits(s, host, groupIds);
    InsertHostMembers(s, host, groupIds);
    CommitNew(s, InsertHost(s, host, groupIds))
  }

  /** The keys of the office's groups, as a set. */
  function OfficeGroupSet(s: Store, o: Id): (ids: set<Id>)
    requires KeysDrawn(s)
    ensures forall g :: g in ids <==> g in s.groups && s.groups[g].officeId == Some(o)
  {
    set g | g in OfficeGroups(s, o)
  }

  /** Some host, of any company and office, is named `name`, at most one. */
  predicate HostNameUnique(s: Store, name: Name) {
    forall i, j :: i in s.hosts && j in s.hosts && s.hosts[i].name == name && s.hosts[j].name == name ==> i == j
  }

  /** `del_host`. The lookup has no join condition, as in `del_group`: it matches every host
      with that name as long as the office and company names are in use somewhere. */
  function DelHost(s: Store, hostName: Name, companyName: Name, officeName: Name): (r: Store)
    requires Valid(s)
    requires Truthy(officeName) && Truthy(companyName) && CompanyNamed(s, companyName) && OfficeNamed(s, officeName) ==> HostNameUnique(s, hostName)
    ensures Valid(r)
    ensures !Truthy(officeName) || !Truthy(companyName) || !CompanyNamed(s, companyName) || !OfficeNamed(s, officeName) ==> r == s
    ensures (forall i :: i in s.hosts ==> s.hosts[i].name != hostName) ==> r == s
    ensures forall h :: h in s.hosts && s.hosts[h].name == hostName && Truthy(officeName) && Truthy(companyName) && CompanyNamed(s, companyName) && OfficeNamed(s, officeName) ==>
      && r == s.(hosts := s.hosts - {h}, members := r.members)
      && forall p :: p in r.members <==> p in s.members && p.0 != h
  {
    if !Truthy(officeName) || !Truthy(companyName) || GetCompany(s, companyName).None? then s
    else if FirstWhere(s.offices, (i: Id, of: Office) => of.name == officeName, s.nextId).None? then s
    else match FirstWhere(s.hosts, (i: Id, ho: Host) => ho.name == hostName, s.nextId)
      case None => s
      case Some(h) =>
        RemoveHostValid(s, h, RemoveHost(s, h));
        Commit(s, RemoveHost(s, h))
  }
}
