/**
  The "new users" computation of the new_users extension: the users of the
  platform who are not system administrators and who are listed as a member
  of no organization.

  The two host queries (`organization_list` with `include_users`, and
  `user_list`) are parameters: `orgs` and `allUsers` are the snapshots they
  return.
*/
module NewUsersQuery {

  /** A platform user as `user_list` returns it (the fields read here). */
  datatype User = User(name: string, displayName: string, sysadmin: bool)

  /** One entry of an organization's `users` list. */
  datatype Member = Member(name: string, capacity: string)

  /** An organization as `organization_list` returns it with its members. */
  datatype Organization = Organization(name: string, displayName: string, users: seq<Member>)

  /** What `get_new_users` returns: the list alone, or the pair (list, orgs)
      when it is called with `include_orgs=True`. */
  datatype NewUsersResult =
    | UsersOnly(newUsers: seq<string>)
    | UsersAndOrgs(newUsers: seq<string>, orgs: seq<Organization>)

  // ---------------------------------------------------------------------
  // Reference definitions, stated directly over the inputs.
  // ---------------------------------------------------------------------

  /** `n` is the name in some member entry of some organization. */
  predicate IsListedMember(orgs: seq<Organization>, n: string)
  {
    exists i, j :: 0 <= i < |orgs| && 0 <= j < |orgs[i].users| && orgs[i].users[j].name == n
  }

  /** Some user called `n` has a false `sysadmin` flag. */
  predicate IsNonSysadminUser(allUsers: seq<User>, n: string)
  {
    exists k :: 0 <= k < |allUsers| && allUsers[k].name == n && !allUsers[k].sysadmin
  }

  /** A "new user": a non-sysadmin user who belongs to no organization. */
  predicate IsNewUser(allUsers: seq<User>, orgs: seq<Organization>, n: string)
  {
    IsNonSysadminUser(allUsers, n) && !IsListedMember(orgs, n)
  }

  /** `r` holds every element of `s`, nothing else, and each one once. */
  predicate IsListingOf(r: seq<string>, s: set<string>)
  {
    (forall x :: x in r ==> x in s) && (forall x :: x in s ==> x in r) && NoDuplicates(r)
  }

  predicate NoDuplicates(r: seq<string>)
  {
    forall i, j :: 0 <= i < j < |r| ==> r[i] != r[j]
  }

  // ---------------------------------------------------------------------
  // The computation, step by step, as pure functions.
  // ---------------------------------------------------------------------

  /** The names in one organization's member list. */
  function NamesOf(ms: seq<Member>): set<string>
  {
    set m | m in ms :: m.name
  }

  /** The `members` set that the nested loop builds: the union of the member
      names of the organizations, in order. */
  function MemberNames(orgs: seq<Organization>): set<string>
  {
    if |orgs| == 0 then {} else MemberNames(orgs[..|orgs| - 1]) + NamesOf(orgs[|orgs| - 1].users)
  }

  /** The list comprehension `[user["name"] for user in all_users if not
      user["sysadmin"]]`: the names of the non-sysadmin users, in order. */
  function NonSysadminNames(allUsers: seq<User>): (r: seq<string>)
    ensures |r| <= |allUsers|
    ensures forall n :: n in r <==> IsNonSysadminUser(allUsers, n)
  {
    if |allUsers| == 0 then []
    else
      var init, last := allUsers[..|allUsers| - 1], allUsers[|allUsers| - 1];
      var r := NonSysadminNames(init) + (if last.sysadmin then [] else [last.name]);
      assert forall n :: IsNonSysadminUser(init, n) ==> IsNonSysadminUser(allUsers, n) by {
        forall n | IsNonSysadminUser(init, n) ensures IsNonSysadminUser(allUsers, n) {
          var k :| 0 <= k < |init| && init[k].name == n && !init[k].sysadmin;
          assert allUsers[k] == init[k];
        }
      }
      assert forall n :: IsNonSysadminUser(allUsers, n) ==> n in r by {
        forall n | IsNonSysadminUser(allUsers, n) ensures n in r {
          var k :| 0 <= k < |allUsers| && allUsers[k].name == n && !allUsers[k].sysadmin;
          if k < |init| {
            assert init[k] == allUsers[k];
            assert IsNonSysadminUser(init, n);
          }
        }
      }
      r
  }

  /** `set(non_sysadmin_users) - members`: the set of new users. */
  function NewUserSet(allUsers: seq<User>, orgs: seq<Organization>): set<string>
  {
    (set n | n in NonSysadminNames(allUsers)) - MemberNames(orgs)
  }

  // ---------------------------------------------------------------------
  // Properties of the specification.
  // ---------------------------------------------------------------------

  /** The union the loop builds is exactly the set of listed member names. */
  lemma {:induction false} MemberNamesExact(orgs: seq<Organization>, n: string)
    ensures n in MemberNames(orgs) <==> IsListedMember(orgs, n)
  {
    if |orgs| > 0 {
      var init, last := orgs[..|orgs| - 1], orgs[|orgs| - 1];
      MemberNamesExact(init, n);
      if IsListedMember(init, n) {
        var i, j :| 0 <= i < |init| && 0 <= j < |init[i].users| && init[i].users[j].name == n;
        assert orgs[i] == init[i];
      }
      if n in NamesOf(last.users) {
        var m :| m in last.users && m.name == n;
        var j :| 0 <= j < |last.users| && last.users[j] == m;
        assert orgs[|orgs| - 1].users[j].name == n;
      }
      if IsListedMember(orgs, n) {
        var i, j :| 0 <= i < |orgs| && 0 <= j < |orgs[i].users| && orgs[i].users[j].name == n;
        if i < |init| {
          assert init[i] == orgs[i];
        } else {
          assert orgs[i].users[j] in last.users;
        }
      }
    }
  }

  /** Soundness and completeness: a name is in the new-user set exactly when
      it belongs to a non-sysadmin user and to no organization's member list. */
  lemma NewUserSetExact(allUsers: seq<User>, orgs: seq<Organization>, n: string)
    ensures n in NewUserSet(allUsers, orgs) <==> IsNewUser(allUsers, orgs, n)
  {
    MemberNamesExact(orgs, n);
  }

  /** A duplicate-free list of a set is exactly as long as the set is large. */
  lemma {:induction false} ListingLength(r: seq<string>, s: set<string>)
    requires IsListingOf(r, s)
    ensures |r| == |s|
  {
    if |r| > 0 {
      var x := r[0];
      assert forall y :: y in r[1..] <==> y in s - {x} by {
        forall y ensures y in r[1..] <==> y in s - {x} {
          if y in r[1..] {
            var k :| 1 <= k < |r| && r[k] == y;
            assert r[0] != r[k];
          }
          if y in s - {x} {
            var k :| 0 <= k < |r| && r[k] == y;
            assert k != 0;
            assert r[1..][k - 1] == y;
          }
        }
      }
      ListingLength(r[1..], s - {x});
    }
  }

  /** An empty user list gives no new users, whatever the organizations. */
  lemma NoUsersNoNewUsers(orgs: seq<Organization>)
    ensures NewUserSet([], orgs) == {}
  {
  }

  /** With no organizations, the new users are all the non-sysadmin users. */
  lemma NoOrgsAllNonSysadmins(allUsers: seq<User>)
    ensures forall n :: n in NewUserSet(allUsers, []) <==> IsNonSysadminUser(allUsers, n)
  {
  }

  /** When every non-sysadmin user is listed in some organization, there are
      no new users. */
  lemma EveryoneInAnOrgNoNewUsers(allUsers: seq<User>, orgs: seq<Organization>)
    requires forall k :: 0 <= k < |allUsers| && !allUsers[k].sysadmin ==> IsListedMember(orgs, allUsers[k].name)
    ensures NewUserSet(allUsers, orgs) == {}
  {
    forall n | n in NewUserSet(allUsers, orgs) ensures false {
      NewUserSetExact(allUsers, orgs, n);
    }
  }

  /** A sysadmin is never a new user, member of an organization or not. */
  lemma SysadminNeverNew(allUsers: seq<User>, orgs: seq<Organization>, n: string)
    requires forall k :: 0 <= k < |allUsers| && allUsers[k].name == n ==> allUsers[k].sysadmin
    ensures n !in NewUserSet(allUsers, orgs)
  {
  }

  // ---------------------------------------------------------------------
  // The scenarios of the extension's tests, on concrete snapshots.
  // ---------------------------------------------------------------------

  const Admin := User("sysadmin", "Sysadmin", true)
  const User1 := User("user_1", "User 1", false)
  const User2 := User("user_2", "User 2", false)

  /** Two users who both belong to "test-org": nobody is new. */
  lemma AllUsersInOrgScenario()
    ensures NewUserSet([Admin, User1, User2],
                       [Organization("test-org", "Test Org", [Member("user_1", "member"), Member("user_2", "member")])]) == {}
  {
  }

  /** Only user_1 belongs to "test-org": user_2 is the one new user, and the
      sysadmin is not listed although it belongs to no organization. */
  lemma OnlyUnaffiliatedListedScenario()
    ensures NewUserSet([Admin, User1, User2],
                       [Organization("test-org", "Test Org", [Member("user_1", "member")])]) == {"user_2"}
  {
  }

  // ---------------------------------------------------------------------
  // The operations.
  // ---------------------------------------------------------------------

  /** `list(s)` of a Python set: the elements of `s` in some order, each once. */
  method ListOfSet(s: set<string>) returns (r: seq<string>)
    ensures IsListingOf(r, s)
  {
    r := [];
    var rest := s;
    while rest != {}
      invariant rest <= s
      invariant forall x :: x in r <==> x in s && x !in rest
      invariant NoDuplicates(r)
      decreases rest
    {
      var x :| x in rest;
      r := r + [x];
      rest := rest - {x};
    }
  }

  /** `get_new_users(include_orgs)`: the duplicate-free list of new users,
      together with the organization list, unchanged, when `includeOrgs`. */
  method GetNewUsers(orgs: seq<Organization>, allUsers: seq<User>, includeOrgs: bool)
    returns (r: NewUsersResult)
    ensures r.UsersAndOrgs? <==> includeOrgs
    ensures r.UsersAndOrgs? ==> r.orgs == orgs
    ensures IsListingOf(r.newUsers, NewUserSet(allUsers, orgs))
    ensures forall n :: n in r.newUsers <==> IsNewUser(allUsers, orgs, n)
    ensures |r.newUsers| == |NewUserSet(allUsers, orgs)|
  {
    var members: set<string> := {};
    for i := 0 to |orgs|
      invariant members == MemberNames(orgs[..i])
    {
      assert orgs[..i + 1][..i] == orgs[..i];
      for j := 0 to |orgs[i].users|
        invariant members == MemberNames(orgs[..i]) + NamesOf(orgs[i].users[..j])
      {
        assert orgs[i].users[..j + 1] == orgs[i].users[..j] + [orgs[i].users[j]];
        members := members + {orgs[i].users[j].name};
      }
      assert orgs[i].users[..|orgs[i].users|] == orgs[i].users;
    }
    assert orgs[..|orgs|] == orgs;
    var nonSysadminUsers := NonSysadminNames(allUsers);
    var newUsers := ListOfSet((set n | n in nonSysadminUsers) - members);
    forall n ensures n in newUsers <==> IsNewUser(allUsers, orgs, n) {
      NewUserSetExact(allUsers, orgs, n);
    }
    ListingLength(newUsers, NewUserSet(allUsers, orgs));
    if includeOrgs {
      r := UsersAndOrgs(newUsers, orgs);
    } else {
      r := UsersOnly(newUsers);
    }
  }

  /** `get_new_users_count()`: the length of the list `get_new_users` returns,
      which is the number of new users. */
  method GetNewUsersCount(orgs: seq<Organization>, allUsers: seq<User>) returns (count: nat)
    ensures count == |NewUserSet(allUsers, orgs)|
  {
    var r := GetNewUsers(orgs, allUsers, false);
    count := |r.newUsers|;
  }
}
