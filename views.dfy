/**
  The two admin views of the new_users extension: the listing (GET) and the
  assignment of a user to an organization (POST).

  The host's authorization engine (`check_access`) is an `Authorizer`: the
  answer it gives for an action name and the data dictionary passed with it,
  for the caller fixed by the request. HTTP output is reduced to a tagged
  `Response`; the host's `group_member_create` action is `CreateGroupMember`,
  an update of the organization snapshot.
*/
module NewUsersViews {
  import opened Wrappers
  import opened NewUsersQuery

  /** The value bound to the `id` key of the dictionary passed to
      `check_access`. The assignment view passes Python's builtin function
      `id` there, never the submitted organization, and no other value is
      ever passed. */
  datatype AccessId = PythonBuiltinId

  datatype AccessDict = AccessDict(id: AccessId)

  /** `check_access(action, context[, data_dict])` for the current caller:
      true when it returns, false when it raises `NotAuthorized`. */
  type Authorizer = (string, Option<AccessDict>) -> bool

  /** The data dictionary handed to `group_member_create`. */
  datatype MembershipRequest = MembershipRequest(id: Option<string>, username: Option<string>, role: string)

  /** What a view hands back to the web framework. `HostFailure` is an error
      raised by a host action and left to propagate. */
  datatype Response =
    | Abort(status: nat, message: string)
    | Render(template: string, newUsers: seq<string>, orgs: seq<Organization>)
    | Redirect(route: string)
    | HostFailure

  /** The outcome of the assignment view: its response and the organizations
      as they are after it. */
  datatype AssignOutcome = AssignOutcome(response: Response, orgs: seq<Organization>)

  const SysadminAction := "sysadmin"
  const GroupMemberCreateAction := "group_member_create"
  const NotSysadminMessage := "Need to be system administrator to administer"
  const AssignDeniedMessage := "Unauthorized to assign members to organizations"
  const ListingTemplate := "new_users/admin/new_users.html"
  const ListingRoute := "new_users.new_users"
  const MemberRole := "member"

  /** `form.get(key)`: the submitted field, or None when it is absent. */
  function FormGet(form: map<string, string>, key: string): Option<string>
  {
    if key in form then Some(form[key]) else None
  }

  predicate OrgExists(orgs: seq<Organization>, orgName: string)
  {
    exists i :: 0 <= i < |orgs| && orgs[i].name == orgName
  }

  predicate UserExists(allUsers: seq<User>, userName: string)
  {
    exists k :: 0 <= k < |allUsers| && allUsers[k].name == userName
  }

  /** Appends `m` to the member list of every organization called `orgName`. */
  function AddMember(orgs: seq<Organization>, orgName: string, m: Member): (r: seq<Organization>)
    ensures |r| == |orgs|
    ensures forall i :: 0 <= i < |orgs| && orgs[i].name != orgName ==> r[i] == orgs[i]
    ensures forall i :: 0 <= i < |orgs| && orgs[i].name == orgName ==>
      && r[i].name == orgs[i].name
      && r[i].displayName == orgs[i].displayName
      && r[i].users == orgs[i].users + [m]
    ensures forall n :: IsListedMember(r, n) <==> IsListedMember(orgs, n) || (n == m.name && OrgExists(orgs, orgName))
  {
    var r := seq(|orgs|, i requires 0 <= i < |orgs| =>
      if orgs[i].name == orgName then orgs[i].(users := orgs[i].users + [m]) else orgs[i]);
    assert forall n :: IsListedMember(r, n) ==> IsListedMember(orgs, n) || (n == m.name && OrgExists(orgs, orgName)) by {
      forall n | IsListedMember(r, n)
        ensures IsListedMember(orgs, n) || (n == m.name && OrgExists(orgs, orgName))
      {
        var i, j :| 0 <= i < |r| && 0 <= j < |r[i].users| && r[i].users[j].name == n;
        if j < |orgs[i].users| {
          assert orgs[i].users[j] == r[i].users[j];
        } else {
          assert orgs[i].name == orgName;
        }
      }
    }
    assert forall n :: IsListedMember(orgs, n) ==> IsListedMember(r, n) by {
      forall n | IsListedMember(orgs, n) ensures IsListedMember(r, n) {
        var i, j :| 0 <= i < |orgs| && 0 <= j < |orgs[i].users| && orgs[i].users[j].name == n;
        assert r[i].users[j] == orgs[i].users[j];
      }
    }
    assert OrgExists(orgs, orgName) ==> IsListedMember(r, m.name) by {
      if OrgExists(orgs, orgName) {
        var i :| 0 <= i < |orgs| && orgs[i].name == orgName;
        assert r[i].users[|orgs[i].users|] == m;
      }
    }
    r
  }

  /** The host's `group_member_create` on the snapshot: it fails when a field
      is missing or names no organization or no user, and otherwise records
      the membership with the requested role. */
  function CreateGroupMember(orgs: seq<Organization>, allUsers: seq<User>, req: MembershipRequest): (r: Option<seq<Organization>>)
    ensures r.None? <==>
      || req.id.None? || req.username.None?
      || !OrgExists(orgs, req.id.value) || !UserExists(allUsers, req.username.value)
    ensures r.Some? ==> r.value == AddMember(orgs, req.id.value, Member(req.username.value, req.role))
  {
    if req.id.None? || req.username.None? then None
    else if !OrgExists(orgs, req.id.value) || !UserExists(allUsers, req.username.value) then None
    else Some(AddMember(orgs, req.id.value, Member(req.username.value, req.role)))
  }

  /** The request the assignment view builds from the submitted form. */
  function AssignRequest(form: map<string, string>): (r: MembershipRequest)
    ensures r.id == (if "org" in form then Some(form["org"]) else None)
    ensures r.username == (if "user" in form then Some(form["user"]) else None)
    ensures r.role == "member"
  {
    MembershipRequest(FormGet(form, "org"), FormGet(form, "user"), MemberRole)
  }

  /** The access check of the assignment view. Its data dictionary binds
      `id` to Python's builtin `id`, so the answer cannot depend on the
      submitted organization; this model keeps that behaviour. */
  predicate AssignAllowed(checkAccess: Authorizer)
    ensures AssignAllowed(checkAccess) <==> checkAccess("group_member_create", Some(AccessDict(PythonBuiltinId)))
  {
    checkAccess(GroupMemberCreateAction, Some(AccessDict(PythonBuiltinId)))
  }

  /** `NewUsersView.get`: 403 with a fixed message for a caller who is not a
      sysadmin; otherwise the listing page over the new users and the
      organizations. */
  method NewUsersGet(checkAccess: Authorizer, orgs: seq<Organization>, allUsers: seq<User>)
    returns (resp: Response)
    ensures !checkAccess(SysadminAction, None) ==> resp == Abort(403, NotSysadminMessage)
    ensures checkAccess(SysadminAction, None) ==>
      && resp.Render?
      && resp.template == ListingTemplate
      && resp.orgs == orgs
      && NoDuplicates(resp.newUsers)
      && (forall n :: n in resp.newUsers <==> IsNewUser(allUsers, orgs, n))
  {
    if !checkAccess(SysadminAction, None) {
      return Abort(403, NotSysadminMessage);
    }
    var r := GetNewUsers(orgs, allUsers, true);
    resp := Render(ListingTemplate, r.newUsers, r.orgs);
  }

  /** `AssignUserView.post`: 403 with a fixed message and no membership change
      when the access check fails; otherwise the membership request with role
      "member" goes to the host and, when the host accepts it, the caller is
      redirected to the listing. */
  function AssignUserPost(checkAccess: Authorizer, form: map<string, string>,
                          orgs: seq<Organization>, allUsers: seq<User>): (r: AssignOutcome)
    ensures !AssignAllowed(checkAccess) ==> r == AssignOutcome(Abort(403, AssignDeniedMessage), orgs)
    ensures r.response == Redirect(ListingRoute) <==>
      AssignAllowed(checkAccess) && CreateGroupMember(orgs, allUsers, AssignRequest(form)).Some?
    ensures r.response != Redirect(ListingRoute) ==> r.orgs == orgs
    ensures AssignAllowed(checkAccess) && CreateGroupMember(orgs, allUsers, AssignRequest(form)).None? ==>
      r == AssignOutcome(HostFailure, orgs)
    ensures r.response == Redirect(ListingRoute) ==>
      && "org" in form && "user" in form
      && OrgExists(orgs, form["org"]) && UserExists(allUsers, form["user"])
      && r.orgs == AddMember(orgs, form["org"], Member(form["user"], "member"))
  {
    if !AssignAllowed(checkAccess) then AssignOutcome(Abort(403, AssignDeniedMessage), orgs)
    else
      match CreateGroupMember(orgs, allUsers, AssignRequest(form))
      case None => AssignOutcome(HostFailure, orgs)
      case Some(updated) => AssignOutcome(Redirect(ListingRoute), updated)
  }

  // ---------------------------------------------------------------------
  // Properties of the assignment.
  // ---------------------------------------------------------------------

  /** Recording a membership in an existing organization adds exactly that
      name to the members. */
  lemma AddMemberNames(orgs: seq<Organization>, orgName: string, m: Member)
    requires OrgExists(orgs, orgName)
    ensures MemberNames(AddMember(orgs, orgName, m)) == MemberNames(orgs) + {m.name}
  {
    var after := AddMember(orgs, orgName, m);
    forall n ensures n in MemberNames(after) <==> n in MemberNames(orgs) + {m.name} {
      MemberNamesExact(after, n);
      MemberNamesExact(orgs, n);
    }
  }

  /** An allowed assignment of an existing user to an existing organization
      redirects to the listing, and the new-user set then lacks exactly that
      user: every other name keeps its status. */
  lemma AssignRemovesExactlyThatUser(checkAccess: Authorizer, form: map<string, string>,
                                     orgs: seq<Organization>, allUsers: seq<User>)
    requires AssignAllowed(checkAccess)
    requires "org" in form && "user" in form
    requires OrgExists(orgs, form["org"]) && UserExists(allUsers, form["user"])
    ensures AssignUserPost(checkAccess, form, orgs, allUsers).response == Redirect(ListingRoute)
    ensures NewUserSet(allUsers, AssignUserPost(checkAccess, form, orgs, allUsers).orgs)
         == NewUserSet(allUsers, orgs) - {form["user"]}
  {
    AddMemberNames(orgs, form["org"], Member(form["user"], MemberRole));
  }

  /** The assignment's access decision is the same whatever organization and
      user are submitted, and whatever the host's snapshots hold: the check
      sees neither the form nor the target organization. */
  lemma AssignGateIgnoresForm(checkAccess: Authorizer,
                              form1: map<string, string>, orgs1: seq<Organization>, allUsers1: seq<User>,
                              form2: map<string, string>, orgs2: seq<Organization>, allUsers2: seq<User>)
    ensures AssignUserPost(checkAccess, form1, orgs1, allUsers1).response.Abort?
        <==> AssignUserPost(checkAccess, form2, orgs2, allUsers2).response.Abort?
  {
  }

  /** A sysadmin assigns the one ordinary user to the empty organization
      "org_1": the response redirects to the listing, which is then empty. */
  lemma AssignUserScenario(checkAccess: Authorizer)
    requires AssignAllowed(checkAccess)
    ensures AssignUserPost(checkAccess, map["org" := "org_1", "user" := "user_1"],
                           [Organization("org_1", "Org 1", [])], [Admin, User1]).response == Redirect(ListingRoute)
    ensures NewUserSet([Admin, User1],
                       AssignUserPost(checkAccess, map["org" := "org_1", "user" := "user_1"],
                                      [Organization("org_1", "Org 1", [])], [Admin, User1]).orgs) == {}
  {
    var form := map["org" := "org_1", "user" := "user_1"];
    var orgs := [Organization("org_1", "Org 1", [])];
    var allUsers := [Admin, User1];
    assert OrgExists(orgs, "org_1") by { assert orgs[0].name == "org_1"; }
    assert UserExists(allUsers, "user_1") by { assert allUsers[1].name == "user_1"; }
    AssignRemovesExactlyThatUser(checkAccess, form, orgs, allUsers);
  }
}
