/** The role shown beside a message just posted, and the one the channel page shows for its author later. */
module PostRole {
  import opened Tables
  import opened Permissions
  import opened PermissionCorrectness
  import opened Priorities
  import Page = ChannelPage

  /** No role; the role found; or assignments whose roles are gone, on which the handler gives up. */
  datatype RoleLookup = NoRole | Found(role: Role) | Missing

  /** The role is assigned to the user in this community, whatever community the role itself belongs to. */
  ghost predicate Assigned(roles: seq<Role>, assignments: seq<Assignment>, community: nat, user: nat, r: Role) {
    r in roles && Assignment(r.id, user, community) in assignments
  }

  ghost predicate AssignedAny(assignments: seq<Assignment>, community: nat, user: nat) {
    exists a :: a in assignments && a.communityId == community && a.userId == user
  }

  /** A role the handler may attach to a post: the database may return any of the strongest. */
  ghost predicate MayPost(roles: seq<Role>, assignments: seq<Assignment>, community: nat, user: nat, r: Role) {
    && Assigned(roles, assignments, community, user, r)
    && forall x :: Assigned(roles, assignments, community, user, x) ==> r.priority <= x.priority
  }

  method RoleForPost(roles: seq<Role>, assignments: seq<Assignment>, community: nat, user: nat) returns (r: RoleLookup)
    ensures r.NoRole? <==> !AssignedAny(assignments, community, user)
    ensures r.Missing? <==>
              && AssignedAny(assignments, community, user)
              && forall x :: !Assigned(roles, assignments, community, user, x)
    ensures r.Found? ==> MayPost(roles, assignments, community, user, r.role)
  {
    var rolesUsers := AssignmentsOfUser(assignments, community, user);
    var cids: seq<nat> := [];
    for i := 0 to |rolesUsers|
      invariant |cids| == i && forall k :: 0 <= k < i ==> cids[k] == rolesUsers[k].roleId
    {
      cids := cids + [rolesUsers[i].roleId];
    }
    CidsAre(assignments, community, user, cids);
    if |cids| == 0 { return NoRole; }
    var rows := RolesById(roles, cids);
    if |rows| == 0 {
      assert forall x :: x !in rows;
      return Missing;
    }
    var best := rows[0];
    for i := 0 to |rows|
      invariant best in rows && forall k :: 0 <= k < i ==> best.priority <= rows[k].priority
    {
      if rows[i].priority < best.priority { best := rows[i]; }
    }
    forall x | Assigned(roles, assignments, community, user, x) ensures best.priority <= x.priority {
      assert x in rows;
      var k :| 0 <= k < |rows| && rows[k] == x;
    }
    assert Assigned(roles, assignments, community, user, best);
    r := Found(best);
  }

  lemma CidsAre(assignments: seq<Assignment>, community: nat, user: nat, cids: seq<nat>)
    requires var rows := AssignmentsOfUser(assignments, community, user);
             |cids| == |rows| && forall k :: 0 <= k < |rows| ==> cids[k] == rows[k].roleId
    ensures |cids| == 0 <==> !AssignedAny(assignments, community, user)
    ensures forall id :: id in cids <==> Assignment(id, user, community) in assignments
  {
    var rows := AssignmentsOfUser(assignments, community, user);
    assert |rows| > 0 ==> rows[0] in rows;
    forall id ensures id in cids <==> Assignment(id, user, community) in assignments {
      if id in cids {
        var k :| 0 <= k < |cids| && cids[k] == id;
        assert rows[k] in rows && rows[k] == Assignment(id, user, community);
      }
      if Assignment(id, user, community) in assignments {
        assert Assignment(id, user, community) in rows;
        var k :| 0 <= k < |rows| && rows[k] == Assignment(id, user, community);
        assert cids[k] == id;
      }
    }
  }

  /** The join rows the page fetched, as far as this user is concerned. */
  ghost predicate FetchedFor(rolesUsers: seq<Assignment>, assignments: seq<Assignment>, community: nat, user: nat) {
    forall a: Assignment :: a.userId == user ==> (a in rolesUsers <==> a in assignments && a.communityId == community)
  }

  /** When every assignment joins a role of its own community, looking roles up by id is looking them up by
      community. */
  lemma AssignedIsHeld(db: Db, rolesUsers: seq<Assignment>, c: nat, user: nat, r: Role)
    requires Consistent(db) && FetchedFor(rolesUsers, db.assignments, c, user)
    ensures Assigned(db.roles, db.assignments, c, user, r) <==> Page.Holds(RolesOf(db.roles, c), rolesUsers, user, r)
  {
  }

  /** Two roles of the user share the lowest priority. */
  ghost predicate Tied(db: Db, c: nat, user: nat) {
    exists r: Role, s: Role ::
      && r != s && r.priority == s.priority && MayPost(db.roles, db.assignments, c, user, r)
      && Assigned(db.roles, db.assignments, c, user, s)
  }

  ghost predicate AlwaysAgree(db: Db, rolesUsers: seq<Assignment>, c: nat, user: nat) {
    forall posted, shown ::
      && MayPost(db.roles, db.assignments, c, user, posted)
      && Page.IsPowerful(RolesOf(db.roles, c), rolesUsers, user, shown)
      ==> posted == shown
  }

  lemma MayPostIsPowerful(db: Db, rolesUsers: seq<Assignment>, c: nat, user: nat, r: Role)
    requires Consistent(db) && FetchedFor(rolesUsers, db.assignments, c, user)
    ensures MayPost(db.roles, db.assignments, c, user, r)
       <==> Page.IsPowerful(RolesOf(db.roles, c), rolesUsers, user, r)
  {
    forall x
      ensures Assigned(db.roles, db.assignments, c, user, x) <==> Page.Holds(RolesOf(db.roles, c), rolesUsers, user, x)
    {
      AssignedIsHeld(db, rolesUsers, c, user, x);
    }
  }

  /** The message shows, when it is posted, the role the page will show, whichever of several each query picks, if and
      only if no two of the user's roles share the lowest priority. */
  lemma PostRoleIsPageRoleIff(db: Db, rolesUsers: seq<Assignment>, c: nat, user: nat)
    requires Consistent(db) && FetchedFor(rolesUsers, db.assignments, c, user)
    ensures AlwaysAgree(db, rolesUsers, c, user) <==> !Tied(db, c, user)
  {
    forall r
      ensures MayPost(db.roles, db.assignments, c, user, r)
         <==> Page.IsPowerful(RolesOf(db.roles, c), rolesUsers, user, r)
    {
      MayPostIsPowerful(db, rolesUsers, c, user, r);
    }
    if Tied(db, c, user) {
      var r: Role, s: Role :|
        && r != s && r.priority == s.priority && MayPost(db.roles, db.assignments, c, user, r)
        && Assigned(db.roles, db.assignments, c, user, s);
      assert MayPost(db.roles, db.assignments, c, user, s);
    }
  }

  /** Distinct priorities are enough, with gaps or without. */
  lemma DistinctNeverTied(db: Db, c: nat, user: nat)
    requires Consistent(db) && DistinctPriorities(db.roles, c)
    ensures !Tied(db, c, user)
  {
    forall r: Role, s: Role
      | r != s && Assigned(db.roles, db.assignments, c, user, r) && Assigned(db.roles, db.assignments, c, user, s)
      ensures r.priority != s.priority
    {
      var i :| 0 <= i < |db.roles| && db.roles[i] == r;
      var j :| 0 <= j < |db.roles| && db.roles[j] == s;
    }
  }

  lemma PostRoleIsPageRole(db: Db, rolesUsers: seq<Assignment>, c: nat, user: nat)
    requires Consistent(db) && DistinctPriorities(db.roles, c) && FetchedFor(rolesUsers, db.assignments, c, user)
    ensures AlwaysAgree(db, rolesUsers, c, user)
  {
    DistinctNeverTied(db, c, user);
    PostRoleIsPageRoleIff(db, rolesUsers, c, user);
  }

  /** An assigned user always has a role to show, on both. */
  lemma AssignedHasRole(db: Db, rolesUsers: seq<Assignment>, c: nat, user: nat)
    requires Consistent(db) && FetchedFor(rolesUsers, db.assignments, c, user)
    ensures AssignedAny(db.assignments, c, user) <==> exists r :: Assigned(db.roles, db.assignments, c, user, r)
    ensures AssignedAny(db.assignments, c, user) <==> exists r :: Page.Holds(RolesOf(db.roles, c), rolesUsers, user, r)
  {
    forall r
      ensures Assigned(db.roles, db.assignments, c, user, r) <==> Page.Holds(RolesOf(db.roles, c), rolesUsers, user, r)
    {
      AssignedIsHeld(db, rolesUsers, c, user, r);
    }
    if AssignedAny(db.assignments, c, user) {
      var a :| a in db.assignments && a.communityId == c && a.userId == user;
      var s :| s in db.roles && s.id == a.roleId && s.communityId == c;
      assert Assigned(db.roles, db.assignments, c, user, s);
    }
  }

  /** After every run that leaves the community's priorities distinct, the two answers agree, whatever was deleted or
      reordered before. */
  lemma {:induction false} RunPostRoleIsPageRole(ops: seq<Op>, rolesUsers: seq<Assignment>, c: nat, user: nat)
    requires DistinctPriorities(Run(EMPTY_DB, ops).roles, c)
    requires FetchedFor(rolesUsers, Run(EMPTY_DB, ops).assignments, c, user)
    ensures AlwaysAgree(Run(EMPTY_DB, ops), rolesUsers, c, user)
  {
    RunConsistent(ops);
    PostRoleIsPageRole(Run(EMPTY_DB, ops), rolesUsers, c, user);
  }

  /** Among them every run whose deletes are of last roles and whose reorders are complete. */
  lemma {:induction false} TidyRunPostRoleIsPageRole(ops: seq<Op>, rolesUsers: seq<Assignment>, c: nat, user: nat)
    requires AllTidy(EMPTY_DB, ops) && FetchedFor(rolesUsers, Run(EMPTY_DB, ops).assignments, c, user)
    ensures AlwaysAgree(Run(EMPTY_DB, ops), rolesUsers, c, user)
  {
    RunTidy(ops);
    TidyDistinct(Run(EMPTY_DB, ops), c);
    RunPostRoleIsPageRole(ops, rolesUsers, c, user);
  }
}
