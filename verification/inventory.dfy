/** The entity model: Company, Office, Group and Host tables, the host/group association
    table, and the constraints the schema declares on them. */
module Inventory {
  import opened Wrappers
  import opened Tables

  /** A string column or argument: SQL NULL (Python `None`) or a string. */
  type Name = Option<string>

  /** Python truthiness of a name argument: `None` and `""` are both false. */
  predicate Truthy(n: Name) {
    n.Some? && n.value != ""
  }

  datatype Company = Company(name: Name)

  datatype Office = Office(name: Name, companyId: Option<Id>)

  datatype Group = Group(name: Name, companyId: Option<Id>, officeId: Option<Id>)

  datatype Host = Host(name: Name, companyId: Option<Id>, officeId: Option<Id>)

  /** The relational store. `members` holds the `(host_id, group_id)` rows of the
      association table; `nextId` is the primary-key sequence. */
  datatype Store = Store(
    companies: map<Id, Company>,
    offices: map<Id, Office>,
    groups: map<Id, Group>,
    hosts: map<Id, Host>,
    members: set<(Id, Id)>,
    nextId: Id)

  /** Every primary key in use was drawn from the sequence. */
  predicate KeysDrawn(s: Store) {
    && (forall i :: i in s.companies ==> i < s.nextId)
    && (forall i :: i in s.offices ==> i < s.nextId)
    && (forall i :: i in s.groups ==> i < s.nextId)
    && (forall i :: i in s.hosts ==> i < s.nextId)
  }

  /** No two keys of `m` hold the same row: a UNIQUE constraint over all of the row's columns. */
  predicate Unique<R(==)>(m: map<Id, R>) {
    forall i, j :: i in m && j in m && m[i] == m[j] ==> i == j
  }

  /** `company.name`: NOT NULL and UNIQUE. Keys come from the sequence. */
  predicate CompaniesValid(s: Store) {
    && (forall i :: i in s.companies ==> i < s.nextId && s.companies[i].name.Some?)
    && Unique(s.companies)
  }

  /** `office`: name and company_id NOT NULL, company_id a foreign key, (name, company_id) UNIQUE. */
  predicate OfficesValid(s: Store) {
    && (forall i :: i in s.offices ==>
          && i < s.nextId && s.offices[i].name.Some?
          && s.offices[i].companyId.Some? && s.offices[i].companyId.value in s.companies)
    && Unique(s.offices)
  }

  /** `group`: name, company_id and office_id NOT NULL, both ids foreign keys,
      (name, company_id, office_id) UNIQUE. */
  predicate GroupsValid(s: Store) {
    && (forall i :: i in s.groups ==>
          && i < s.nextId && s.groups[i].name.Some?
          && s.groups[i].companyId.Some? && s.groups[i].companyId.value in s.companies
          && s.groups[i].officeId.Some? && s.groups[i].officeId.value in s.offices)
    && Unique(s.groups)
  }

  /** `host`: the same declarations as `group`. */
  predicate HostsValid(s: Store) {
    && (forall i :: i in s.hosts ==>
          && i < s.nextId && s.hosts[i].name.Some?
          && s.hosts[i].companyId.Some? && s.hosts[i].companyId.value in s.companies
          && s.hosts[i].officeId.Some? && s.hosts[i].officeId.value in s.offices)
    && Unique(s.hosts)
  }

  /** `association`: host_id and group_id are foreign keys. */
  predicate MembersValid(s: Store) {
    forall p :: p in s.members ==> p.0 in s.hosts && p.1 in s.groups
  }

  /** The NOT NULL declarations on the name columns alone. */
  predicate NamesPresent(s: Store) {
    && (forall i :: i in s.companies ==> s.companies[i].name.Some?)
    && (forall i :: i in s.offices ==> s.offices[i].name.Some?)
    && (forall i :: i in s.groups ==> s.groups[i].name.Some?)
    && (forall i :: i in s.hosts ==> s.hosts[i].name.Some?)
  }

  lemma ValidNamesPresent(s: Store)
    requires Valid(s)
    ensures KeysDrawn(s) && NamesPresent(s)
  {
  }

  /** Every constraint the schema declares: what a commit checks. */
  predicate Valid(s: Store) {
    && CompaniesValid(s)
    && OfficesValid(s)
    && GroupsValid(s)
    && HostsValid(s)
    && MembersValid(s)
  }

  /** The freshly created schema: every table empty. */
  function EmptyStore(): (s: Store)
    ensures Valid(s)
    ensures s.companies == map[] && s.offices == map[] && s.groups == map[] && s.hosts == map[] && s.members == {}
  {
    Store(map[], map[], map[], map[], {}, 0)
  }

  // The relationships of the entity model, each in key order.

  /** `company.offices` */
  function CompanyOffices(s: Store, c: Id): (ids: seq<Id>)
    requires KeysDrawn(s)
    ensures forall i :: i in ids <==> i in s.offices && s.offices[i].companyId == Some(c)
  {
    Select(s.offices, (i: Id, o: Office) => o.companyId == Some(c), s.nextId)
  }

  /** `company.groups` */
  function CompanyGroups(s: Store, c: Id): (ids: seq<Id>)
    requires KeysDrawn(s)
    ensures forall i :: i in ids <==> i in s.groups && s.groups[i].companyId == Some(c)
    ensures Increasing(ids)
  {
    Select(s.groups, (i: Id, g: Group) => g.companyId == Some(c), s.nextId)
  }

  /** `office.groups` */
  function OfficeGroups(s: Store, o: Id): (ids: seq<Id>)
    requires KeysDrawn(s)
    ensures forall i :: i in ids <==> i in s.groups && s.groups[i].officeId == Some(o)
    ensures Increasing(ids)
  {
    Select(s.groups, (i: Id, g: Group) => g.officeId == Some(o), s.nextId)
  }

  /** `office.hosts` */
  function OfficeHosts(s: Store, o: Id): (ids: seq<Id>)
    requires KeysDrawn(s)
    ensures forall i :: i in ids <==> i in s.hosts && s.hosts[i].officeId == Some(o)
    ensures Increasing(ids)
  {
    Select(s.hosts, (i: Id, h: Host) => h.officeId == Some(o), s.nextId)
  }

  /** `group.hosts`, read through the association table */
  function GroupHosts(s: Store, g: Id): (ids: seq<Id>)
    requires KeysDrawn(s)
    ensures forall i :: i in ids <==> i in s.hosts && (i, g) in s.members
    ensures Increasing(ids)
  {
    Select(s.hosts, (i: Id, h: Host) => (i, g) in s.members, s.nextId)
  }

  /** `host.groups`, read through the same association table */
  function HostGroups(s: Store, h: Id): (ids: seq<Id>)
    requires KeysDrawn(s)
    ensures forall i :: i in ids <==> i in s.groups && (h, i) in s.members
  {
    Select(s.groups, (i: Id, g: Group) => (h, i) in s.members, s.nextId)
  }

  /** The two sides of the many-to-many relationship are one relation: a host is among a
      group's hosts exactly when the group is among the host's groups. */
  lemma MembershipSymmetric(s: Store, h: Id, g: Id)
    requires Valid(s)
    ensures h in GroupHosts(s, g) <==> g in HostGroups(s, h)
    ensures h in GroupHosts(s, g) <==> (h, g) in s.members
  {
  }
}
