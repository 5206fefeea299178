# AnsibleInventory manager, modelled in Dafny

AnsibleInventory keeps an Ansible inventory in a relational database. A company has
offices. An office has groups and hosts. A host belongs to several groups of its office
through an association table. The `Manager` class adds, looks up and deletes these records
through an ORM session. `dump_hosts_by_group` exports the inventory as a dictionary from
`"{company}_{office}_{group}"` to the names of that group's hosts.

The model treats the database as an immutable value `Inventory.Store`:

- one map from primary key to row per table;
- the association table, as a set of `(host, group)` pairs;
- the primary-key sequence `nextId`.

Columns hold `Option` values, so a NULL can be written and then refused. `Inventory.Valid`
states every NOT NULL, UNIQUE and FOREIGN KEY declaration of the schema, and a commit is
kept only when it holds. Otherwise the handler's rollback restores the previous store
(`Manager.Commit`, `Manager.CommitNew`). Each manager method becomes a pure function:

- an `add_*` returns a `Manager.Step`, which holds the store after commit or rollback and
  the key of the new row or `None`;
- a `del_*` returns the store;
- a `get_*` returns a key, a list of keys, or `None`.

Modules:

- `Tables`: the key-ordered scans that stand in for queries without ORDER BY.
- `Inventory`: rows, the schema's constraints and the relationships.
- `Flush`: what each `session.add`/`session.delete` writes, and when its commit succeeds.
- `Manager`: the operations.
- `Dump`: `dump_hosts_by_group`.
- `Invariants`: what the manager keeps true beyond the schema.
- `Properties`: round trips between operations.
- `Findings` and `Counterexamples`: the two defects listed under Findings.

Modelling decisions, each following the code:

- Python truthiness of a name is `Inventory.Truthy`: `None` and `""` are both false.
- Queries without ORDER BY return rows in ascending key order.
- Deleting a company or office that still has children nulls the children's
  `company_id`/`office_id`, because the relationships declare no cascade. The NOT NULL
  declarations then fail the commit, which is rolled back.
- `one_or_none` raising on several matches, `get_host` iterating `None`, and `add_host`
  calling the logger object itself when the company name is falsy all raise. They become
  preconditions.
- Three behaviours of the code that its names and messages do not suggest, kept as written:
  - `add_company`, `add_office`, `add_group` and `add_host` accept an empty-string name; only
    `None` fails, at commit.
  - `add_office` gives up early only when BOTH names are falsy.
  - `add_host` checks the office's groups against `group_names`, not the reverse (see
    Findings).

## Model

| member | source | states |
|---|---|---|
| Tables.Select | Manager.py:42-45 | a query or relationship load without ORDER BY: exactly the matching rows, in ascending key order |
| Tables.FirstWhere | Manager.py:95-100 | `one_or_none` and first-match loops: the least matching key, or `None` exactly when no row matches |
| Inventory.Truthy | Manager.py:129-131 | the `if not name` guards: a name is falsy when it is `None` or `""` |
| Inventory.CompaniesValid | inventory.py:36-44 | `company.name` is NOT NULL and UNIQUE |
| Inventory.OfficesValid | inventory.py:47-60 | `office.name` and `office.company_id` are NOT NULL, `company_id` is a foreign key, and (name, company_id) is UNIQUE |
| Inventory.GroupsValid | inventory.py:63-86 | `group.name`, `company_id` and `office_id` are NOT NULL, both ids are foreign keys, and (name, company_id, office_id) is UNIQUE |
| Inventory.HostsValid | inventory.py:94-115 | `host.name`, `company_id` and `office_id` are NOT NULL, both ids are foreign keys, and (name, company_id, office_id) is UNIQUE |
| Inventory.MembersValid | inventory.py:30-33 | both columns of the association table are foreign keys |
| Inventory.Valid | inventory.py:30-115 | every declaration of the schema: what a commit checks |
| Inventory.ValidNamesPresent | inventory.py:36-115 | every committed row has a key drawn from the sequence and a non-NULL name |
| Inventory.EmptyStore | inventory.py:36-115 | the freshly created schema, every table empty, satisfies every declared constraint |
| Inventory.CompanyOffices | inventory.py:42 | `company.offices` lists exactly the offices whose `company_id` is that company |
| Inventory.CompanyGroups | inventory.py:43 | `company.groups` lists exactly the company's groups, in key order |
| Inventory.OfficeGroups | inventory.py:56 | `office.groups` lists exactly the office's groups, in key order |
| Inventory.OfficeHosts | inventory.py:55 | `office.hosts` lists exactly the office's hosts, in key order |
| Inventory.GroupHosts | inventory.py:88-91 | `group.hosts` lists exactly the hosts paired with the group in the association table |
| Inventory.HostGroups | inventory.py:107-110 | `host.groups` lists exactly the groups paired with the host in the association table |
| Inventory.MembershipSymmetric | inventory.py:30-33 | a host is among a group's hosts exactly when the group is among the host's groups, exactly when the pair is in the association table |
| Flush.NewCompany | Manager.py:61-63 | the state `Company(name=...)`, `session.add` and the flush write: one row under the next key |
| Flush.NewCompanyCommits | inventory.py:36-44 | a new company row with an unused name commits exactly when the name is not NULL |
| Flush.NewCompanyValid | inventory.py:40-41 | a named company row with an unused name keeps NOT NULL and UNIQUE on `company.name` |
| Flush.DetachCompany | Manager.py:79-80 | the state `session.delete(company)` flushes: the row goes and every child's `company_id` becomes NULL |
| Flush.DetachCompanyCommits | Manager.py:73-85 | deleting a company commits exactly when no office, group or host refers to it, and then only its row goes |
| Flush.DetachUsedCompanyFails | inventory.py:53 | a child left with a NULL `company_id` breaks a NOT NULL declaration |
| Flush.DetachUnusedCompany | inventory.py:42-44 | with no children, the delete nulls nothing |
| Flush.RemoveUnusedCompanyValid | inventory.py:53 | removing an unreferenced company keeps every foreign key |
| Flush.NewOffice | Manager.py:117-119 | the state `Office(name=..., company=...)` and its flush write: one row under the next key |
| Flush.NewOfficeCommits | inventory.py:47-60 | a new office of an existing company, with a name unused there, commits exactly when the name is not NULL |
| Flush.NewOfficeValid | inventory.py:57-60 | such a row keeps the (name, company_id) UNIQUE constraint |
| Flush.DetachOffice | Manager.py:141-142 | the state `session.delete(office)` flushes: the row goes and every child's `office_id` becomes NULL |
| Flush.DetachOfficeCommits | Manager.py:128-146 | deleting an office commits exactly when no group or host refers to it, and then only its row goes |
| Flush.DetachUsedOfficeFails | inventory.py:79 | a child left with a NULL `office_id` breaks a NOT NULL declaration |
| Flush.DetachUnusedOffice | inventory.py:55-56 | with no children, the delete nulls nothing |
| Flush.RemoveUnusedOfficeValid | inventory.py:79 | removing an unreferenced office keeps every foreign key |
| Flush.NewGroup | Manager.py:212-214 | the state `Group(name=..., company=..., office=...)` and its flush write: one row under the next key |
| Flush.NewGroupCommits | inventory.py:63-86 | a new group of an existing company and office, with a name no group of that company has in any office, commits exactly when the name is not NULL |
| Flush.NewGroupValid | inventory.py:82-86 | such a row, named, keeps the (name, company_id, office_id) UNIQUE constraint and every other declaration |
| Flush.RemoveGroup | Manager.py:237-238 | the state `session.delete(group)` flushes: the row and its association rows go |
| Flush.RemoveGroupValid | inventory.py:30-33 | removing a group with its association rows keeps every constraint |
| Flush.InsertHost | Manager.py:362-364 | the state `Host(..., groups=groups)` and its flush write: the host row under the next key and one association row per group |
| Flush.InsertHostCommits | inventory.py:94-115 | a new host row with its association rows commits exactly when the name is not NULL |
| Flush.InsertHostValid | inventory.py:94-115 | the host table and association table constraints together give the whole schema |
| Flush.InsertHostRowValid | inventory.py:111-115 | a new named host, unused in its office, keeps the host table's constraints |
| Flush.InsertHostMembersValid | inventory.py:30-33 | the new association rows refer to the new host and to existing groups |
| Flush.InsertHostMembers | inventory.py:107-110 | the association table gains exactly the pairs of the new host with the given groups |
| Flush.RemoveHost | Manager.py:387-388 | the state `session.delete(host)` flushes: the row and its association rows go |
| Flush.RemoveHostValid | inventory.py:30-33 | removing a host with its association rows keeps every constraint |
| Manager.Commit | Manager.py:79-85 | `session.commit()` with the rollback handler: the flushed state exactly when it meets the schema, otherwise the old one; a valid store stays valid |
| Manager.CommitNew | Manager.py:61-71 | the same for an `add_*`: the new key is returned exactly when the flushed state meets the schema, and then that state is kept; otherwise the rollback leaves the store unchanged |
| Manager.GetCompany | Manager.py:95-100 | the result is the company with that name, when some company has it |
| Manager.GetOffice | Manager.py:148-160 | both names must be truthy; the result is the office with that name in the named company |
| Manager.GetOffices | Manager.py:162-172 | for a truthy name of an existing company, exactly that company's offices |
| Manager.GetGroup | Manager.py:244-261 | needs a truthy group name and the office, but finds a group by name among ALL of the company's groups |
| Manager.GetGroups | Manager.py:263-274 | needs the office, but returns every group of the company |
| Manager.GetHosts | Manager.py:305-320 | exactly the hosts of the named office of the named company |
| Manager.GetHost | Manager.py:322-325 | a host of the office with that name, found exactly when one exists |
| Manager.AddCompany | Manager.py:55-71 | refused with the store unchanged when the name is taken or NULL; otherwise exactly one new company with that name |
| Manager.DelCompany | Manager.py:73-85 | no-op for an unknown name; otherwise removes exactly the company's row when nothing refers to it, else rolls back |
| Manager.AddOffice | Manager.py:102-126 | succeeds exactly when at least one name is truthy, the company exists, the office name is not NULL and unused in that company; adds exactly that office |
| Manager.DelOffice | Manager.py:128-146 | no-op for falsy names or unknown names; otherwise removes the office with that name, of any company, when nothing refers to it |
| Manager.AddGroup | Manager.py:194-221 | succeeds exactly when the office exists, the name is not NULL and no group of the company in ANY office has it; adds exactly that group |
| Manager.DelGroup | Manager.py:223-242 | no-op when the office or company name is falsy or names no office or company, or when no group has the given name (which may be `""`); otherwise removes the group with that name, wherever it is, and its association rows |
| Manager.AddHost | Manager.py:327-371 | succeeds exactly when the office exists, `group_names` is non-empty, the name is not NULL and unused in the office, and every group of the office is named; the host joins exactly the office's groups |
| Manager.CreateHost | Manager.py:360-371 | the new host commits exactly when its name is not NULL, and joins exactly the given groups |
| Manager.NamedIn | Manager.py:354 | `grp.name in group_names`: a NULL group name is in no list |
| Manager.OfficeGroupSet | Manager.py:353 | the set of the office's groups |
| Manager.DelHost | Manager.py:373-392 | no-op when the office or company name is falsy or names no office or company, or when no host has the given name (which may be `""`); otherwise removes the host with that name, wherever it is, and its association rows |
| Dump.Key | Manager.py:46-48 | the key `'{}_{}_{}'.format(company.name, office.name, group.name)` |
| Dump.Fill | Manager.py:46-52 | the assignments `group_hosts[group_name] = _hosts` of the loop bodies, in visiting order |
| Dump.DumpHostsByGroup | Manager.py:40-52 | the dictionary the nested loops build, starting from `{}` |
| Dump.VisitsOf | Manager.py:45 | the inner loop `for group in office.groups` visits exactly the listed groups, each once |
| Dump.NamesOf | Manager.py:49-51 | `_hosts` holds the name of each host of the list, position by position |
| Dump.GroupVisits | Manager.py:45 | one visit per group of the office, none twice |
| Dump.OfficeVisits | Manager.py:44 | one visit per office of the company and group of that office, none twice |
| Dump.CompanyVisits | Manager.py:43 | one visit per company, office and group placed under one another, none twice |
| Dump.Visits | Manager.py:43-45 | the nested loops visit exactly the placed (company, office, group) triples, each once |
| Dump.HostNames | Manager.py:49-51 | the list holds the names of the group's hosts, position by position |
| Dump.FillKeys | Manager.py:42-52 | filling `{}` from every visit gives exactly the keys that some company, office and group of the store spell |
| Dump.FillLastWins | Manager.py:46-52 | after the loop, a key is present exactly when some visit spelt it, and holds the hosts of the last such visit |
| Dump.DumpKeys | Manager.py:40-52 | the dump has a key exactly when some company, office of it and group of that office spell it |
| Dump.DumpLastWins | Manager.py:52 | under each key, the dump holds the hosts of the last visit spelling it |
| Dump.LastWithKeyExists | Manager.py:52 | a key some visit spells has a last visit spelling it |
| Dump.DumpUniqueKey | Manager.py:46-52 | a group whose key nothing else spells is dumped with exactly its hosts' names |
| Dump.KeyCollision | Manager.py:46-48 | two different groups of one valid store can spell the same key |
| Invariants.Consistent | Manager.py:102-371 | what the `add_*` pre-checks keep true beyond the schema: groups and hosts lie in offices of their own company, hosts join only groups of their office, and group names are unique per company |
| Invariants.EmptyConsistent | inventory.py:36-115 | the empty store satisfies the manager's invariant |
| Invariants.AddCompanyConsistent | Manager.py:55-71 | `add_company` preserves the invariant |
| Invariants.DelCompanyConsistent | Manager.py:73-85 | `del_company` preserves the invariant |
| Invariants.AddOfficeConsistent | Manager.py:102-126 | `add_office` preserves the invariant |
| Invariants.DelOfficeConsistent | Manager.py:128-146 | `del_office` preserves the invariant |
| Invariants.AddGroupConsistent | Manager.py:194-221 | `add_group` preserves the invariant: its group's office belongs to its company, and group names stay unique per company |
| Invariants.NewGroupRowConsistent | Manager.py:206-214 | a group row in an office of its company, with a name new to the company, preserves the invariant |
| Invariants.NewGroupInOwnCompany | Manager.py:201-214 | such a row keeps every group's office in the group's company |
| Invariants.NewGroupNameUnique | Manager.py:206-209 | such a row keeps group names unique per company |
| Invariants.DelGroupConsistent | Manager.py:223-242 | `del_group` preserves the invariant |
| Invariants.AddHostConsistent | Manager.py:327-371 | `add_host` preserves the invariant: its host's office belongs to its company, and it joins only groups of its office |
| Invariants.NewHostRowConsistent | Manager.py:352-362 | a host row in an office of its company, joined only to that office's groups, preserves the invariant |
| Invariants.NewHostInOwnCompany | Manager.py:338-362 | such a row keeps every host's office in the host's company |
| Invariants.NewHostMembersShareOffice | Manager.py:352-362 | such a row keeps every host in groups of its own office only |
| Invariants.DelHostConsistent | Manager.py:373-392 | `del_host` preserves the invariant |
| Properties.AddCompanyThenGet | Manager.py:55-71 | `get_company` finds the company `add_company` created |
| Properties.AddCompanyTwice | Manager.py:56-59 | a second `add_company` of the same name is refused and changes nothing |
| Properties.AddCompanyThenDelete | Manager.py:73-85 | `del_company` undoes `add_company`, apart from the key sequence |
| Properties.AddOfficeThenGet | Manager.py:148-160 | `get_office` finds the office `add_office` created |
| Properties.AddOfficeThenGetOffices | Manager.py:162-172 | `get_offices` lists the company's earlier offices and the one `add_office` created, and nothing else |
| Properties.AddOfficeThenDelete | Manager.py:128-146 | `del_office` undoes `add_office` of a name no office had, apart from the key sequence |
| Properties.DelOnlyOffice | Manager.py:140-143 | deleting the only, unreferenced office with a name gives back the store without it |
| Properties.AddOfficeOtherCompany | Manager.py:111-114 | the same office name is accepted under a second company that lacks it |
| Properties.AddOfficeTwice | Manager.py:111-114 | a second `add_office` with the same names is refused and changes nothing |
| Properties.AddGroupInOwnOffice | Manager.py:201-214 | a created group lies in the named office, which belongs to the group's company |
| Properties.AddGroupThenGet | Manager.py:244-261 | `get_group` finds the group `add_group` created |
| Properties.GetGroupIgnoresOffice | Manager.py:257-261 | `get_group` gives the same answer for any two existing offices of the company |
| Properties.AddGroupThenGetGroups | Manager.py:263-274 | `get_groups` after `add_group` lists the company's earlier groups and the new one, and nothing else |
| Properties.GetGroupsIgnoresOffice | Manager.py:269-274 | `get_groups` gives the same list for any two existing offices of the company |
| Properties.AddGroupOtherOfficeRefused | Manager.py:206-209 | a group name used in one office of a company is refused in every other office of it |
| Properties.AddGroupThenDelete | Manager.py:223-242 | `del_group` undoes `add_group` of a name no other group has, apart from the key sequence |
| Properties.DelOnlyGroup | Manager.py:223-242 | deleting the only group with a name gives back the store without it |
| Properties.AddedGroupUnique | Manager.py:206-214 | after `add_group` of a new name, the new group is the only one with it |
| Properties.AddedGroupParentsNamed | Manager.py:196-204 | after `add_group`, the company and office names it was given are in use |
| Properties.AddHostNoGroups | Manager.py:343-345 | `add_host` with no group names is refused and changes nothing |
| Properties.AddHostTwice | Manager.py:347-349 | a second `add_host` of the same name in the office is refused whatever the groups |
| Properties.AddHostThenGetHosts | Manager.py:305-320 | `get_hosts` lists the office's earlier hosts and the one `add_host` created, and nothing else |
| Properties.AddHostThenDelete | Manager.py:373-392 | `del_host` undoes `add_host` of a name no host had, association rows included, apart from the key sequence |
| Properties.AddedHostParentsNamed | Manager.py:333-341 | after `add_host`, the company and office names it was given are in use |
| Properties.AddedHostShape | Manager.py:360-364 | after `add_host` of a new name, the new host is the only one with it and the association table gained rows for it alone |
| Properties.DelOnlyHost | Manager.py:386-388 | deleting the only host with a name gives back the store without it and its association rows |
| Properties.AddHostThenGet | Manager.py:322-325 | `get_host` finds the host `add_host` created |
| Findings.DelOfficeScoped | Manager.py:128-146 | the corrected `del_office` removes only an office of the named company, and never one of another company |
| Findings.ScopedGroup | Manager.py:228-231 | the joined lookup finds exactly a group with that name in the named office of the named company |
| Findings.DelGroupScoped | Manager.py:223-242 | the corrected `del_group` removes only a group of the named office, with its association rows |
| Findings.DelHostScoped | Manager.py:373-392 | the corrected `del_host` removes only a host of the named office, with its association rows |
| Findings.DelOfficeScopedConsistent | Manager.py:128-146 | the corrected `del_office` preserves the invariant |
| Findings.DelGroupScopedConsistent | Manager.py:223-242 | the corrected `del_group` preserves the invariant |
| Findings.DelHostScopedConsistent | Manager.py:373-392 | the corrected `del_host` preserves the invariant |
| Findings.AddHostStrict | Manager.py:327-371 | the corrected `add_host` succeeds exactly when every requested name is a group of the office, and joins exactly the named groups |
| Findings.OfficeGroupListed | Manager.py:353 | a group whose `office_id` is the office is on `office.groups` |
| Findings.NamedGroups | Manager.py:351-358 | the corrected resolution yields the named groups of the office, or fails when a name is not one |
| Findings.AddHostStrictConsistent | Manager.py:327-371 | the corrected `add_host` preserves the invariant |
| Findings.AddHostStrictJoinsRequested | Manager.py:351-362 | after the corrected `add_host`, each requested name is one of the host's groups |
| Counterexamples.AustinOfAcmeValid | inventory.py:36-60 | the store of the `del_office` counterexample is valid |
| Counterexamples.AustinOfAcmeLookups | Manager.py:95-100 | in it, `get_company("RedHat")` finds key 1, Austin is the only office of that name, and nothing refers to office 2 |
| Counterexamples.DelOfficeCrossCompany | Manager.py:133-134 | `del_office` deletes an office of another company, which the corrected delete keeps |
| Counterexamples.TwoOfficesValid | inventory.py:36-115 | the store of the `del_group`/`del_host` counterexamples is valid |
| Counterexamples.TwoOfficesOfficesValid | inventory.py:47-60 | its two offices meet the office table's constraints |
| Counterexamples.TwoOfficesLookups | Manager.py:148-160 | in it, the office named in the calls exists |
| Counterexamples.TwoOfficesNames | Manager.py:228-230 | in it, the names the delete lookups filter on are in use and unique |
| Counterexamples.DelGroupCrossOffice | Manager.py:228-230 | `del_group` deletes a group of another office, which the corrected delete keeps |
| Counterexamples.DelHostCrossOffice | Manager.py:378-380 | `del_host` deletes a host of another office, which the corrected delete keeps |
| Counterexamples.DelGroupRemovesNamed | Manager.py:223-242 | as written, `del_group` deletes the unique group with the name wherever it is |
| Counterexamples.DelHostRemovesNamed | Manager.py:373-392 | as written, `del_host` deletes the unique host with the name wherever it is |
| Counterexamples.DevOpsValid | inventory.py:36-91 | the store of the `add_host` counterexamples is valid |
| Counterexamples.DevOpsLookups | Manager.py:148-160 | in it, the company and the office exist |
| Counterexamples.AddHostRefusesSubset | Manager.py:352-358 | `add_host` refuses a host asked into one of the office's two groups |
| Counterexamples.AddHostStrictAcceptsSubset | Manager.py:352-358 | the corrected `add_host` accepts that call |
| Counterexamples.AddHostIgnoresUnknown | Manager.py:352-358 | `add_host` accepts a call naming a group the office does not have |
| Counterexamples.AddHostStrictRefusesUnknown | Manager.py:352-358 | the corrected `add_host` refuses that call |
| Counterexamples.AddHostCheckInverted | Manager.py:352-358 | on one valid store, both directions of the inverted group check occur |

## Left out

- `list_companies`, `list_offices` and `list_groups` only print, so they are not modelled.
- Logging is not modelled; only the return value and the store are.
- `dump_hosts_by_group` neither returns nor stores its dictionary; it only prints it after each group with `pp`. `Dump.DumpHostsByGroup` returns the dictionary the loops build.
- The session, the engine, `create_all`, `create_manager` and `__exit__` are ORM plumbing. The store value stands in for them.
- The Samba tables in inventory.py are not modelled, because no manager operation uses them.
- run.py only sequences manager calls and is not part of this model.
- All tables draw keys from one sequence that never reuses a key, whereas each table has its own integer primary key. Key order within a table, the only order the model uses, is the same either way.
- ORM internals are abstracted: lazy loading, flush timing, and the order of rows a query returns without ORDER BY (modelled as key order).
- `MultipleResultsFound`, which `one_or_none` raises when the delete lookups match several rows, is a precondition of `Manager.DelOffice`, `Manager.DelGroup` and `Manager.DelHost`.
- `group_names=None` and `group_names=[]` are both falsy in `add_host`. Both are modelled as the empty sequence.
- Foreign keys are checked at every commit, as the schema declares them. Whether the database engine enforces them is not modelled.
- `Manager.GetHost`: the `TypeError` raised when the office is missing is a precondition rather than a modelled error.
- `Manager.AddHost`: the call of the logger object with a falsy company name raises, so a truthy company name is a precondition.

## Findings

| source | as written | input that shows it | evidently intended | confidence | as-written member | corrected member |
|---|---|---|---|---|---|---|
| Manager.py:133-134 | `del_office` filters on the office name and the company name with no join condition | Acme has office Austin, RedHat has none; `del_office("Austin", "RedHat")` deletes Acme's Austin | delete only the named company's office of that name | high (not executed) | Counterexamples.DelOfficeCrossCompany | Findings.DelOfficeScoped |
| Manager.py:228-230 | `del_group` filters on the group, office and company names with no join condition | Acme has offices Austin and Boston, and Boston has group IT; `del_group("IT", "Acme", "Austin")` deletes Boston's IT | delete only a group of the named office of the named company | high (not executed) | Counterexamples.DelGroupCrossOffice | Findings.DelGroupScoped |
| Manager.py:378-380 | `del_host` filters on the host, office and company names with no join condition | the same store with host rr in Boston; `del_host("rr", "Acme", "Austin")` deletes it | delete only a host of the named office of the named company | high (not executed) | Counterexamples.DelHostCrossOffice | Findings.DelHostScoped |
| Manager.py:352-358 | `add_host` requires every group of the office to be named, and ignores names that match no group | office Austin with groups Dev and Ops: `["Dev"]` is refused, and `["Dev", "Ops", "Typo"]` is accepted | every requested name must be a group of the office; the host joins the named groups | medium (not executed) | Counterexamples.AddHostCheckInverted | Findings.AddHostStrict |
