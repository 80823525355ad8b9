# new_users: a verified model

This project models the "new users" admin screen of the CKAN extension
`ckanext-new_users`. A *new user* is a platform user whose `sysadmin` flag is
false and whose name is in no organization's member list. The extension
computes these users (`get_new_users`), counts them for a menu badge
(`get_new_users_count`), lists them on a sysadmin-only page
(`NewUsersView.get`) and lets an authorized caller add one of them to an
organization with the fixed role `"member"` (`AssignUserView.post`).

- `wrappers.dfy`: `Option`, for `form.get` and host actions that may fail.
- `query.dfy` (module `NewUsersQuery`): users, organizations and member
  entries as datatypes. The computation is a method: a nested loop builds
  the member-name set, then the set difference is turned into a list
  (`ListOfSet`, in any order). It is proved against reference predicates
  (`IsListedMember`, `IsNonSysadminUser`, `IsNewUser`) and the pure set
  `NewUserSet`.
- `views.dfy` (module `NewUsersViews`): the two views. They return a
  tagged `Response` (`Abort(403, message)`, `Render`, `Redirect`,
  `HostFailure`). The host's `check_access` is an `Authorizer` parameter.
  The host's membership action is an update of the organization snapshot.

The host queries `organization_list` (with users) and `user_list` are
parameters: `orgs` and `allUsers` are the snapshots they return.

The assignment view's access check (plugin.py:101) passes `{"id": id}`. There,
`id` is Python's builtin function, not the submitted `org`. The model keeps
this: `AssignAllowed` asks the `Authorizer` about
`AccessDict(PythonBuiltinId)`, so the decision cannot depend on the form.
`AssignGateIgnoresForm` states this. The model does not check the target
organization.

## Model

| member | source | states |
|---|---|---|
| `NewUsersQuery.MemberNamesExact` | ckanext/new_users/plugin.py:52-55 | the union built over all organizations' member lists holds exactly the names that appear in some organization's `users` list |
| `NewUsersQuery.NonSysadminNames` | ckanext/new_users/plugin.py:59 | the comprehension yields a name exactly when some user with that name has a false `sysadmin` flag, and no more entries than there are users |
| `NewUsersQuery.NewUserSetExact` | ckanext/new_users/plugin.py:59-60 | soundness and completeness: a name is in `set(non_sysadmin_users) - members` iff it belongs to a non-sysadmin user and to no organization's member list |
| `NewUsersQuery.ListOfSet` | ckanext/new_users/plugin.py:60 | `list(...)` of a set yields every element of the set, nothing else, each once, in an unspecified order |
| `NewUsersQuery.ListingLength` | ckanext/new_users/plugin.py:60 | a duplicate-free list of a set's elements has exactly as many entries as the set |
| `NewUsersQuery.GetNewUsers` | ckanext/new_users/plugin.py:48-65 | the returned list holds exactly the new users, without duplicates, and its length is the size of the new-user set; with `include_orgs` the organization list given is returned unchanged beside it, without it only the list is returned |
| `NewUsersQuery.GetNewUsersCount` | ckanext/new_users/plugin.py:68-69 | the badge count is the length of the list `get_new_users` returns, which is the number of new users |
| `NewUsersQuery.NoUsersNoNewUsers` | ckanext/new_users/plugin.py:56-60 | an empty user list gives no new users, for any organizations |
| `NewUsersQuery.NoOrgsAllNonSysadmins` | ckanext/new_users/plugin.py:52-60 | with no organizations the new users are exactly the non-sysadmin users |
| `NewUsersQuery.EveryoneInAnOrgNoNewUsers` | ckanext/new_users/plugin.py:52-60 | when every non-sysadmin user is listed in some organization, there are no new users |
| `NewUsersQuery.SysadminNeverNew` | ckanext/new_users/plugin.py:59 | a name that only sysadmin users carry is never a new user, whatever the memberships |
| `NewUsersQuery.AllUsersInOrgScenario` | ckanext/new_users/tests/test_plugin.py:96-112 | a sysadmin and two users who both belong to "test-org" give no new users |
| `NewUsersQuery.OnlyUnaffiliatedListedScenario` | ckanext/new_users/tests/test_plugin.py:114-133 | with only user_1 in "test-org", the new users are exactly user_2; the unaffiliated sysadmin is not listed |
| `NewUsersViews.NewUsersGet` | ckanext/new_users/plugin.py:73-87 | a caller who fails the `sysadmin` check gets 403 "Need to be system administrator to administer"; any other caller gets the listing template with exactly the new users (no duplicates) and the organization list unchanged |
| `NewUsersViews.AddMember` | ckanext/new_users/plugin.py:105 | recording a membership appends the member entry to the organization with the given name, keeping its name and display name; every other organization is unchanged and their number stays the same; afterwards a name is listed as a member iff it was before or it is the added member and the organization exists |
| `NewUsersViews.CreateGroupMember` | ckanext/new_users/plugin.py:105 | the host's membership action fails exactly when the request lacks the organization or the user, or names an unknown organization or user; otherwise the organizations become those of `AddMember` with a member entry carrying the requested role |
| `NewUsersViews.AssignRequest` | ckanext/new_users/plugin.py:93-98 | the membership request takes `id` from the form's `org` field and `username` from its `user` field, each None when absent, and the fixed role "member" |
| `NewUsersViews.AssignAllowed` | ckanext/new_users/plugin.py:100-101 | the assignment is allowed iff the access check for "group_member_create" passes with the data dictionary whose `id` is Python's builtin `id`, not the submitted organization |
| `NewUsersViews.AssignUserPost` | ckanext/new_users/plugin.py:91-107 | a failed access check gives 403 "Unauthorized to assign members to organizations" and leaves the organizations untouched; the view redirects to the listing iff the check passes and the host accepts the request built from the form; after a redirect both fields were submitted and name an existing organization and user, and the organizations are exactly the old ones with `Member(form user, "member")` appended to the organization named by the form; without a redirect nothing changes; when the check passes but the host rejects the request, the response is `HostFailure` (the host's error propagates) and the organizations are unchanged |
| `NewUsersViews.AddMemberNames` | ckanext/new_users/plugin.py:94-105 | adding a member entry to an existing organization adds exactly that name to the set of member names |
| `NewUsersViews.AssignRemovesExactlyThatUser` | ckanext/new_users/plugin.py:93-107 | an allowed assignment of an existing user to an existing organization redirects to the listing, and the new-user set loses exactly that user while every other name keeps its status |
| `NewUsersViews.AssignGateIgnoresForm` | ckanext/new_users/plugin.py:100-103 | the assignment's 403 decision is the same for any two submitted forms and any two host snapshots, because the access check receives the builtin `id` and not the submitted organization |
| `NewUsersViews.AssignUserScenario` | ckanext/new_users/tests/test_plugin.py:216-232 | assigning the only ordinary user to the empty "org_1" redirects to the listing, and the new-user list is then empty |

## Left out

- Plugin registration: the Flask blueprint and its URL rules, `update_config`, the admin tab and `get_helpers` (plugin.py:8-45). They only register code with the host and compute nothing.
- The host's `check_access` internals and the caller identity (`toolkit.g`). They are the `Authorizer` parameter: one boolean answer per action name and data dictionary.
- The host's `group_member_create` is not part of this model. `CreateGroupMember` assumes that it fails when a field is missing or names an unknown organization or user. It also assumes that it otherwise appends a member entry with the requested role to the organization with that name. Resolving an organization by id rather than by name is not modelled. Changing the role of an existing membership is not modelled either, because the role does not affect which users are new. The host action also runs its own access check, against the submitted organization. It may therefore refuse a caller whom the view's check let through. `CreateGroupMember` does not model that refusal. So the redirect that `AssignRemovesExactlyThatUser` promises holds only when the host grants its own check.
- `request.form` is a multi-valued dictionary whose `get` returns the first of repeated fields. The form is modelled as a `map`, which cannot hold a field twice, so repeated fields are not modelled.
- Host failures are reduced to one `HostFailure` response. Their kind and message are left to the host's error handler.
- `toolkit.render`, `toolkit.abort`, `redirect_to` and the templates. These become the `Render`, `Abort` and `Redirect` responses. The translation `toolkit._` is taken to return its argument unchanged.
- The tests of the menu item and of the rendered HTML (test_plugin.py:135-214) depend on templates that are not part of this model. The badge count is `GetNewUsersCount`. The listing receives the organizations unchanged (`NewUsersGet`).
- The badge count is a method rather than a pure function, because it calls the `GetNewUsers` method.
