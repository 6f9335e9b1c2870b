/** What each handler leaves alone, and what a role edit sets. */
module PermissionFrames {
  import opened Tables
  import opened Permissions
  import opened PermissionRuns
  import opened PermissionRows

  /** Everything stored about a community is the same in both databases. */
  ghost predicate SameCommunity(db: Db, db': Db, c: nat) {
    && (c in db.communities <==> c in db'.communities)
    && (c in db.communities ==> db'.communities[c] == db.communities[c])
    && (forall r: Role :: r.communityId == c ==> (r in db.roles <==> r in db'.roles))
    && (forall a: Assignment :: a.communityId == c ==> (a in db.assignments <==> a in db'.assignments))
    && (forall m: Member :: m.communityId == c ==> (m in db.members <==> m in db'.members))
  }

  lemma {:induction false} ReorderedRow(roles: seq<Role>, c: nat, order: seq<nat>, i: nat)
    requires i < |roles| && roles[i].communityId != c
    ensures Reordered(roles, c, order)[i] == roles[i]
  {
    if order != [] { ReorderedRow(roles, c, order[..|order| - 1], i); }
  }

  lemma ReorderedElsewhere(roles: seq<Role>, c: nat, order: seq<nat>, r: Role)
    requires r.communityId != c
    ensures r in roles <==> r in Reordered(roles, c, order)
  {
    var after := Reordered(roles, c, order);
    if i :| 0 <= i < |roles| && roles[i] == r { ReorderedRow(roles, c, order, i); }
    if i :| 0 <= i < |after| && after[i] == r { ReorderedRow(roles, c, order, i); }
  }

  /** The community a handler works on. */
  function Target(db: Db, op: Op): nat {
    if op.NewCommunity? then db.nextCommunity else op.community
  }

  lemma RolesStayHome(db: Db, op: Op, r: Role)
    requires Consistent(db) && r.communityId != Target(db, op)
    ensures r in db.roles <==> r in Step(db, op).roles
  {
    match op
    case EditRoleHalf(community, role, name, show, bits) =>
      if HasRole(db.roles, role, community) { SetRoleElsewhere(db, role, community, name, show, bits, r); }
    case EditPriorities(community, order) => ReorderedElsewhere(db.roles, community, order, r);
    case _ =>
  }

  lemma AssignmentsStayHome(db: Db, op: Op, a: Assignment)
    requires Consistent(db) && a.communityId != Target(db, op)
    ensures a in db.assignments <==> a in Step(db, op).assignments
  {
  }

  lemma SetElsewhere(members: seq<Member>, user: nat, c: nat, bits: Bits, m: Member)
    requires m.communityId != c
    ensures m in members <==> m in SetBits(members, user, c, bits)
  {
    var after := SetBits(members, user, c, bits);
    if i :| 0 <= i < |members| && members[i] == m { assert after[i] == m; }
    if i :| 0 <= i < |after| && after[i] == m { assert members[i] == m; }
  }

  lemma MembersStayHome(db: Db, op: Op, m: Member)
    requires Consistent(db) && m.communityId != Target(db, op)
    ensures m in db.members <==> m in Step(db, op).members
  {
    match op
    case JoinByCode(user, c, _) =>
      if Applies(db, op) {
        SetElsewhere(db.members + [Member(user, c, 0, NO_BITS)], user, c,
                     DerivedById(db.communities[c], db.roles, db.assignments, user), m);
      }
    case _ =>
  }

  /** No handler touches anything stored about another community. */
  lemma HandlersStayHome(db: Db, op: Op, c: nat)
    requires Consistent(db) && c != Target(db, op)
    ensures SameCommunity(db, Step(db, op), c)
  {
    forall r: Role | r.communityId == c ensures r in db.roles <==> r in Step(db, op).roles { RolesStayHome(db, op, r); }
    forall a: Assignment | a.communityId == c
      ensures a in db.assignments <==> a in Step(db, op).assignments
    {
      AssignmentsStayHome(db, op, a);
    }
    forall m: Member | m.communityId == c
      ensures m in db.members <==> m in Step(db, op).members
    {
      MembersStayHome(db, op, m);
    }
  }

  /** After a role edit the role carries what was submitted and keeps its place, its holders are exactly the picked
      members, and no other role or assignment is changed. */
  lemma RoleEditApplied(db: Db, op: Op, r: Role, a: Assignment)
    requires Consistent(db) && op.EditRole? && op.community in db.communities
    requires r in db.roles && r.id == op.role && r.communityId == op.community
    ensures r.(name := op.name, showOnlineDifferently := op.show, bits := op.bits) in Step(db, op).roles
    ensures forall s: Role :: s.id != op.role ==> (s in Step(db, op).roles <==> s in db.roles)
    ensures a.roleId == op.role ==>
              (a in Step(db, op).assignments <==>
                 && a.communityId == op.community && a.userId in op.picks
                 && exists m :: m in db.members && m.userId == a.userId && m.communityId == op.community)
    ensures a.roleId != op.role ==> (a in Step(db, op).assignments <==> a in db.assignments)
  {
    assert HasRole(db.roles, op.role, op.community);
    EditedRoleThere(db.roles, r, op.name, op.show, op.bits);
  }

  lemma EditedRoleThere(roles: seq<Role>, r: Role, name: string, show: bool, bits: Bits)
    requires r in roles
    ensures r.(name := name, showOnlineDifferently := show, bits := bits) in SetRole(roles, r.id, name, show, bits)
    ensures forall s: Role :: s.id != r.id ==> (s in SetRole(roles, r.id, name, show, bits) <==> s in roles)
  {
    var after := SetRole(roles, r.id, name, show, bits);
    var i :| 0 <= i < |roles| && roles[i] == r;
    assert after[i] == RoleSet(r, r.id, name, show, bits);
    forall s: Role | s.id != r.id && s in roles ensures s in after {
      var j :| 0 <= j < |roles| && roles[j] == s;
      assert after[j] == s;
    }
  }

  /** After a role is deleted neither it nor any assignment to it is left, and every other role and assignment is. */
  lemma RoleDeleteApplied(db: Db, op: Op, r: Role, a: Assignment)
    requires Consistent(db) && op.DeleteRole? && op.community in db.communities
    requires HasRole(db.roles, op.role, op.community)
    ensures r in Step(db, op).roles <==> r in db.roles && r.id != op.role
    ensures a in Step(db, op).assignments <==> a in db.assignments && a.roleId != op.role
  {
    DeletedRoleUnassigned(db, op, a);
  }
}
