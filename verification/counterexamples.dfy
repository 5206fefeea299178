/** Concrete stores on which the manager's deletes, as written, remove a record outside the
    scope their arguments name, while the scoped deletes leave it. */
module Counterexamples {
  import opened Wrappers
  import opened Tables
  import opened Inventory
  import opened Flush
  import opened Manager
  import opened Findings

  /** Companies Acme (key 0) and RedHat (key 1); Acme has the office Austin (key 2). */
  function AustinOfAcme(): Store {
    Store(map[0 := Company(Some("Acme")), 1 := Company(Some("RedHat"))],
      map[2 := Office(Some("Austin"), Some(0))], map[], map[], {}, 3)
  }

  /** `AustinOfAcme` meets every declared constraint. */
  lemma AustinOfAcmeValid()
    ensures Valid(AustinOfAcme())
  {
    var s := AustinOfAcme();
    assert Unique(s.companies) by { assert s.companies.Keys == {0, 1}; }
  }

  /** In `AustinOfAcme`, RedHat is key 1 and owns nothing; Austin is the only office. */
  lemma AustinOfAcmeLookups()
    requires Valid(AustinOfAcme())
    ensures GetCompany(AustinOfAcme(), Some("RedHat")) == Some(1)
    ensures OfficeNameUnique(AustinOfAcme(), Some("Austin"))
    ensures !OfficeInUse(AustinOfAcme(), 2)
  {
    assert AustinOfAcme().companies[1] == Company(Some("RedHat"));
  }

  /** Acme has an office Austin; RedHat has none. `del_office("Austin", "RedHat")` deletes
      Acme's Austin office; the scoped delete leaves it. */
  lemma DelOfficeCrossCompany()
    ensures exists s: Store, o: Id ::
      && Valid(s)
      && o in s.offices && s.offices[o].companyId != GetCompany(s, Some("RedHat"))
      && (CompanyNamed(s, Some("RedHat")) ==> OfficeNameUnique(s, Some("Austin")))
      && o !in DelOffice(s, Some("Austin"), Some("RedHat")).offices
      && o in DelOfficeScoped(s, Some("Austin"), Some("RedHat")).offices
  {
    var s := AustinOfAcme();
    AustinOfAcmeValid();
    AustinOfAcmeLookups();
    assert DelOffice(s, Some("Austin"), Some("RedHat")) == s.(offices := s.offices - {2});
    assert GetOffice(s, Some("Austin"), Some("RedHat")).None? by {
      assert s.offices.Values == {Office(Some("Austin"), Some(0))};
    }
  }

  /** Company Acme (key 0) with offices Austin (key 1) and Boston (key 2); Boston has the
      group IT (key 3) and the host rr (key 4). */
  function TwoOffices(): Store {
    Store(map[0 := Company(Some("Acme"))],
      map[1 := Office(Some("Austin"), Some(0)), 2 := Office(Some("Boston"), Some(0))],
      map[3 := Group(Some("IT"), Some(0), Some(2))],
      map[4 := Host(Some("rr"), Some(0), Some(2))], {}, 5)
  }

  /** `TwoOffices` meets every declared constraint. */
  lemma TwoOfficesValid()
    ensures Valid(TwoOffices())
  {
    TwoOfficesOfficesValid();
    var s := TwoOffices();
    assert CompaniesValid(s) && GroupsValid(s) && HostsValid(s) && MembersValid(s);
  }

  /** The two offices of `TwoOffices` have different names and an existing company. */
  lemma TwoOfficesOfficesValid()
    ensures OfficesValid(TwoOffices())
  {
    var s := TwoOffices();
    assert Unique(s.offices) by { assert s.offices.Keys == {1, 2}; }
  }

  /** In `TwoOffices`, Acme's Austin office is key 1. */
  lemma TwoOfficesLookups()
    requires Valid(TwoOffices())
    ensures GetOffice(TwoOffices(), Some("Austin"), Some("Acme")) == Some(1)
  {
    var s := TwoOffices();
    assert s.companies[0] == Company(Some("Acme"));
    assert GetCompany(s, Some("Acme")) == Some(0);
    assert s.offices[1] == Office(Some("Austin"), Some(0));
  }

  /** In `TwoOffices`, the names the deletes are given are in use, and IT and rr are unique. */
  lemma TwoOfficesNames()
    ensures CompanyNamed(TwoOffices(), Some("Acme")) && OfficeNamed(TwoOffices(), Some("Austin"))
    ensures GroupNameUnique(TwoOffices(), Some("IT")) && HostNameUnique(TwoOffices(), Some("rr"))
  {
    var s := TwoOffices();
    assert s.companies[0] == Company(Some("Acme"));
    assert s.offices[1].name == Some("Austin");
  }

  /** `del_group("IT", "Acme", "Austin")` deletes the IT group of Acme's Boston office; the
      scoped delete leaves it. */
  lemma DelGroupCrossOffice()
    ensures exists s: Store, g: Id ::
      && Valid(s)
      && g in s.groups && s.groups[g].officeId != GetOffice(s, Some("Austin"), Some("Acme"))
      && (CompanyNamed(s, Some("Acme")) && OfficeNamed(s, Some("Austin")) ==> GroupNameUnique(s, Some("IT")))
      && g !in DelGroup(s, Some("IT"), Some("Acme"), Some("Austin")).groups
      && g in DelGroupScoped(s, Some("IT"), Some("Acme"), Some("Austin")).groups
  {
    var s := TwoOffices();
    TwoOfficesValid();
    TwoOfficesLookups();
    TwoOfficesNames();
    DelGroupRemovesNamed(s, 3, Some("IT"), Some("Acme"), Some("Austin"));
    assert s.groups[3].officeId != GetOffice(s, Some("Austin"), Some("Acme"));
  }

  /** `del_host("rr", "Acme", "Austin")` deletes the host rr of Acme's Boston office; the
      scoped delete leaves it. */
  lemma DelHostCrossOffice()
    ensures exists s: Store, h: Id ::
      && Valid(s)
      && h in s.hosts && s.hosts[h].officeId != GetOffice(s, Some("Austin"), Some("Acme"))
      && (CompanyNamed(s, Some("Acme")) && OfficeNamed(s, Some("Austin")) ==> HostNameUnique(s, Some("rr")))
      && h !in DelHost(s, Some("rr"), Some("Acme"), Some("Austin")).hosts
      && h in DelHostScoped(s, Some("rr"), Some("Acme"), Some("Austin")).hosts
  {
    var s := TwoOffices();
    TwoOfficesValid();
    TwoOfficesLookups();
    TwoOfficesNames();
    DelHostRemovesNamed(s, 4, Some("rr"), Some("Acme"), Some("Austin"));
    assert s.hosts[4].officeId != GetOffice(s, Some("Austin"), Some("Acme"));
  }

  /** As written, `del_group` deletes the one group with the name wherever it is, as long as
      some company and some office have the names given. */
  lemma DelGroupRemovesNamed(s: Store, g: Id, groupName: Name, companyName: Name, officeName: Name)
    requires Valid(s) && g in s.groups && s.groups[g].name == groupName && GroupNameUnique(s, groupName)
    requires Truthy(officeName) && Truthy(companyName) && CompanyNamed(s, companyName) && OfficeNamed(s, officeName)
    ensures g !in DelGroup(s, groupName, companyName, officeName).groups
  {
    var r := DelGroup(s, groupName, companyName, officeName);
    assert r == s.(groups := s.groups - {g}, members := r.members);
  }

  /** As written, `del_host` deletes the one host with the name wherever it is, as long as
      some company and some office have the names given. */
  lemma DelHostRemovesNamed(s: Store, h: Id, hostName: Name, companyName: Name, officeName: Name)
    requires Valid(s) && h in s.hosts && s.hosts[h].name == hostName && HostNameUnique(s, hostName)
    requires Truthy(officeName) && Truthy(companyName) && CompanyNamed(s, companyName) && OfficeNamed(s, officeName)
    ensures h !in DelHost(s, hostName, companyName, officeName).hosts
  {
    var r := DelHost(s, hostName, companyName, officeName);
    assert r == s.(hosts := s.hosts - {h}, members := r.members);
  }

  /** Company Acme (key 0) with the office Austin (key 1), which has the groups Dev (key 2)
      and Ops (key 3) and no hosts. */
  function DevOps(): Store {
    Store(map[0 := Company(Some("Acme"))],
      map[1 := Office(Some("Austin"), Some(0))],
      map[2 := Group(Some("Dev"), Some(0), Some(1)), 3 := Group(Some("Ops"), Some(0), Some(1))],
      map[], {}, 4)
  }

  /** `DevOps` meets every declared constraint. */
  lemma DevOpsValid()
    ensures Valid(DevOps())
  {
    var s := DevOps();
    assert Unique(s.groups) by { assert s.groups.Keys == {2, 3}; }
  }

  /** In `DevOps`, Acme's Austin office is key 1. */
  lemma DevOpsLookups()
    requires Valid(DevOps())
    ensures GetCompany(DevOps(), Some("Acme")) == Some(0)
    ensures GetOffice(DevOps(), Some("Austin"), Some("Acme")) == Some(1)
  {
    var s := DevOps();
    assert s.companies[0] == Company(Some("Acme"));
    assert s.offices[1] == Office(Some("Austin"), Some(0));
  }

  /** `add_host("web", "Acme", "Austin", ["Dev"])` is refused, because Ops is not named. */
  lemma AddHostRefusesSubset()
    requires Valid(DevOps())
    ensures AddHost(DevOps(), Some("web"), Some("Acme"), Some("Austin"), ["Dev"]).result.None?
  {
    DevOpsLookups();
    assert DevOps().groups[3].officeId == Some(1) && !NamedIn(DevOps().groups[3].name, ["Dev"]);
  }

  /** The strict `add_host` accepts the same call. */
  lemma AddHostStrictAcceptsSubset()
    requires Valid(DevOps())
    ensures AddHostStrict(DevOps(), Some("web"), Some("Acme"), Some("Austin"), ["Dev"]).result.Some?
  {
    DevOpsLookups();
    var names: seq<string> := ["Dev"];
    assert OfficeHasGroup(DevOps(), Some(1), names[0]) by {
      assert DevOps().groups[2].name == Some("Dev");
    }
  }

  /** `add_host("web", "Acme", "Austin", ["Dev", "Ops", "Typo"])` succeeds: the misspelt name
      is ignored. */
  lemma AddHostIgnoresUnknown()
    requires Valid(DevOps())
    ensures AddHost(DevOps(), Some("web"), Some("Acme"), Some("Austin"), ["Dev", "Ops", "Typo"]).result.Some?
  {
    DevOpsLookups();
    var s, names := DevOps(), ["Dev", "Ops", "Typo"];
    assert forall g :: g in s.groups ==> NamedIn(s.groups[g].name, names) by {
      assert names[0] == "Dev" && names[1] == "Ops";
    }
  }

  /** The strict `add_host` refuses the same call: no group of Austin is called Typo. */
  lemma AddHostStrictRefusesUnknown()
    requires Valid(DevOps())
    ensures AddHostStrict(DevOps(), Some("web"), Some("Acme"), Some("Austin"), ["Dev", "Ops", "Typo"]).result.None?
  {
    DevOpsLookups();
    var names := ["Dev", "Ops", "Typo"];
    assert !OfficeHasGroup(DevOps(), Some(1), names[2]);
  }

  /** The two directions in which the `add_host` group check is inverted, on one store. */
  lemma AddHostCheckInverted()
    ensures exists s: Store ::
      && Valid(s)
      && AddHost(s, Some("web"), Some("Acme"), Some("Austin"), ["Dev"]).result.None?
      && AddHostStrict(s, Some("web"), Some("Acme"), Some("Austin"), ["Dev"]).result.Some?
      && AddHost(s, Some("web"), Some("Acme"), Some("Austin"), ["Dev", "Ops", "Typo"]).result.Some?
      && AddHostStrict(s, Some("web"), Some("Acme"), Some("Austin"), ["Dev", "Ops", "Typo"]).result.None?
  {
    DevOpsValid();
    AddHostRefusesSubset();
    AddHostStrictAcceptsSubset();
    AddHostIgnoresUnknown();
    AddHostStrictRefusesUnknown();
    assert Valid(DevOps());
  }
}
