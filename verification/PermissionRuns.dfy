/** Every permission handler keeps the keys of the tables consistent. */
module PermissionRuns {
  import opened Tables
  import opened Permissions

  // ---------------------------------------------------------------- consistency

  lemma RecomputedKeepsKeys(members: seq<Member>, c: Community, roles: seq<Role>, assignments: seq<Assignment>,
                            users: seq<nat>)
    ensures var r := Recomputed(members, c, roles, assignments, users);
            && (forall u, k :: IsMember(members, u, k) ==> IsMember(r, u, k))
            && (forall m :: m in r ==> IsMember(members, m.userId, m.communityId))
  {
    var r := Recomputed(members, c, roles, assignments, users);
    SameKeysSameMembers(members, r);
    SameKeysSameMembers(r, members);
    forall m | m in r ensures IsMember(members, m.userId, m.communityId) {
      assert RowOf(m, m.userId, m.communityId);
    }
  }

  lemma KeysKept(db: Db, db': Db)
    requires Consistent(db)
    requires db'.communities.Keys == db.communities.Keys && db'.nextCommunity == db.nextCommunity
    requires forall c :: c in db.communities
               ==> db'.communities[c].id == c && db'.communities[c].ownerId == db.communities[c].ownerId
    requires forall u, c :: IsMember(db.members, u, c) ==> IsMember(db'.members, u, c)
    requires forall m :: m in db'.members ==> m.communityId in db.communities
    requires forall r, s :: r in db'.roles && s in db'.roles && r.id == s.id ==> r == s
    requires forall r :: r in db'.roles ==> r.id < db'.nextRole && r.communityId in db.communities
    requires forall a :: a in db'.assignments ==>
      HasRole(db'.roles, a.roleId, a.communityId) && IsMember(db.members, a.userId, a.communityId)
    ensures Consistent(db')
  {
  }

  lemma MemberRowsKnown(db: Db)
    requires Consistent(db)
    ensures forall u, c :: IsMember(db.members, u, c) ==> c in db.communities
  {
  }

  lemma ConsistentNewCommunity(db: Db, owner: nat, channel: nat)
    requires Consistent(db)
    ensures Consistent(Step(db, NewCommunity(owner, channel)))
  {
    var db' := Step(db, NewCommunity(owner, channel));
    var k := db.nextCommunity;
    SameKeysSameMembers(db.members, db'.members);
    assert db'.members[|db.members|] in db'.members;
    assert RowOf(Member(owner, k, channel, OWNER_BITS), owner, k);
    assert IsMember(db'.members, owner, k);
  }

  lemma JoinedRowsKnown(db: Db, added: Member, bits: Bits)
    requires Consistent(db) && added.communityId in db.communities
    ensures var rows := db.members + [added]; var stored := SetBits(rows, added.userId, added.communityId, bits);
            && (forall u, k :: IsMember(db.members, u, k) ==> IsMember(rows, u, k) && IsMember(stored, u, k))
            && (forall m :: m in rows || m in stored ==> m.communityId in db.communities)
  {
    var rows := db.members + [added];
    var stored := SetBits(rows, added.userId, added.communityId, bits);
    SameKeysSameMembers(db.members, rows);
    SameKeysSameMembers(rows, stored);
    forall m | m in stored ensures m.communityId in db.communities {
      var i :| 0 <= i < |stored| && stored[i] == m;
      assert rows[i] in rows;
    }
  }

  lemma ConsistentJoin(db: Db, op: Op)
    requires Consistent(db) && (op.Join? || op.JoinByCode?) && op.community in db.communities && op.check == NotBanned
    ensures Consistent(Step(db, op))
  {
    var bits := if op.Join? then db.communities[op.community].defaults else NO_BITS;
    JoinedRowsKnown(db, Member(op.user, op.community, 0, bits),
                    DerivedById(db.communities[op.community], db.roles, db.assignments, op.user));
    KeysKept(db, Step(db, op));
  }

  lemma CreatedAssignmentsWellKeyed(db: Db, op: Op, role: Role)
    requires Consistent(db) && op.CreateRole? && role.id == db.nextRole && role.communityId == op.community
    ensures var added := NewAssignments(role.id, op.community, MembersAmong(db.members, op.community, op.picks));
            forall a :: a in db.assignments + added ==>
              HasRole(db.roles + [role], a.roleId, a.communityId) && IsMember(db.members, a.userId, a.communityId)
  {
  }

  lemma GrantedMembersKnown(db: Db, op: Op)
    requires Consistent(db) && op.CreateRole?
    ensures var members := GrantedAmong(db.members, op.community, op.picks, op.bits);
            (forall m :: m in members ==> m.communityId in db.communities)
            && forall u, c :: IsMember(db.members, u, c) ==> IsMember(members, u, c)
  {
    var members := GrantedAmong(db.members, op.community, op.picks, op.bits);
    SameKeysSameMembers(db.members, members);
    forall m | m in members ensures m.communityId in db.communities {
      var i :| 0 <= i < |members| && members[i] == m;
      assert db.members[i] in db.members;
    }
  }

  lemma CreatedRoleKnown(db: Db, role: Role)
    requires Consistent(db) && role.id == db.nextRole && role.communityId in db.communities
    ensures forall r, s :: r in db.roles + [role] && s in db.roles + [role] && r.id == s.id ==> r == s
    ensures forall r :: r in db.roles + [role] ==> r.id < db.nextRole + 1 && r.communityId in db.communities
  {
  }

  lemma ConsistentCreateRole(db: Db, op: Op)
    requires Consistent(db) && op.CreateRole? && op.community in db.communities
    ensures Consistent(Step(db, op))
  {
    var role := Role(db.nextRole, op.community, op.name, op.show, |RolesOf(db.roles, op.community)|, op.bits);
    var db' := Step(db, op);
    assert db'.roles == db.roles + [role] && db'.nextRole == db.nextRole + 1;
    CreatedRoleKnown(db, role);
    CreatedAssignmentsWellKeyed(db, op, role);
    GrantedMembersKnown(db, op);
    KeysKept(db, db');
  }

  lemma SetRoleKeys(roles: seq<Role>, id: nat, name: string, show: bool, bits: Bits)
    ensures var r := SetRole(roles, id, name, show, bits);
            && (forall x :: x in r ==> exists y :: y in roles && x == RoleSet(y, id, name, show, bits))
            && (forall y :: y in roles ==> RoleSet(y, id, name, show, bits) in r)
            && (forall k, c :: HasRole(roles, k, c) ==> HasRole(r, k, c))
  {
  }

  lemma EditedRolesWellKeyed(db: Db, op: Op)
    requires Consistent(db) && op.EditRole?
    ensures var roles := SetRole(db.roles, op.role, op.name, op.show, op.bits);
            && (forall r, s :: r in roles && s in roles && r.id == s.id ==> r == s)
            && (forall r :: r in roles ==> r.id < db.nextRole && r.communityId in db.communities)
  {
  }

  lemma EditedAssignmentsWellKeyed(db: Db, op: Op)
    requires Consistent(db) && op.EditRole? && HasRole(db.roles, op.role, op.community)
    ensures var roles := SetRole(db.roles, op.role, op.name, op.show, op.bits);
            forall a :: a in EditedAssignments(db.members, db.assignments, op.community, op.role, op.picks) ==>
              HasRole(roles, a.roleId, a.communityId) && IsMember(db.members, a.userId, a.communityId)
  {
  }

  lemma ConsistentEditRole(db: Db, op: Op)
    requires Consistent(db) && op.EditRole? && op.community in db.communities
    requires HasRole(db.roles, op.role, op.community)
    ensures Consistent(Step(db, op))
  {
    var roles := SetRole(db.roles, op.role, op.name, op.show, op.bits);
    var assignments := EditedAssignments(db.members, db.assignments, op.community, op.role, op.picks);
    var users := UserIds(AssignmentsOf(db.assignments, op.community));
    var members := Recomputed(db.members, db.communities[op.community], roles, assignments, users);
    var db' := db.(roles := roles, assignments := assignments, members := members);
    assert Step(db, op) == db';
    RecomputedKeepsKeys(db.members, db.communities[op.community], roles, assignments, users);
    MemberRowsKnown(db);
    EditedRolesWellKeyed(db, op);
    EditedAssignmentsWellKeyed(db, op);
    KeysKept(db, db');
  }

  lemma ConsistentDeleteRole(db: Db, op: Op)
    requires Consistent(db) && op.DeleteRole? && op.community in db.communities
    requires HasRole(db.roles, op.role, op.community)
    ensures Consistent(Step(db, op))
  {
    var roles := WithoutRole(db.roles, op.role);
    var holders := UserIds(AssignmentsOf(db.assignments, op.community));
    var assignments := WithoutAssignmentsAmong(db.assignments, op.role, holders);
    var members := Recomputed(db.members, db.communities[op.community], roles, assignments, holders);
    var db' := db.(roles := roles, assignments := assignments, members := members);
    assert Step(db, op) == db';
    RecomputedKeepsKeys(db.members, db.communities[op.community], roles, assignments, holders);
    MemberRowsKnown(db);
    RemainingAssignmentsWellKeyed(db, op);
    KeysKept(db, db');
  }

  lemma RemainingAssignmentsWellKeyed(db: Db, op: Op)
    requires Consistent(db) && op.DeleteRole? && op.community in db.communities
    requires HasRole(db.roles, op.role, op.community)
    ensures forall a :: a in Step(db, op).assignments ==>
              HasRole(WithoutRole(db.roles, op.role), a.roleId, a.communityId)
                && IsMember(db.members, a.userId, a.communityId)
  {
  }

  /** Deleting the assignments of the community's holders deletes every assignment of the role. */
  lemma DeletedRoleUnassigned(db: Db, op: Op, a: Assignment)
    requires Consistent(db) && op.DeleteRole? && op.community in db.communities
    requires HasRole(db.roles, op.role, op.community)
    ensures a in Step(db, op).assignments <==> a in db.assignments && a.roleId != op.role
  {
  }

  lemma ReorderedIds(roles: seq<Role>, community: nat, order: seq<nat>)
    ensures var r := Reordered(roles, community, order);
            forall i :: 0 <= i < |roles|
              ==> r[i].id == roles[i].id && r[i].communityId == roles[i].communityId && r[i].bits == roles[i].bits
  {
  }

  lemma ConsistentReorder(db: Db, op: Op)
    requires Consistent(db) && op.EditPriorities? && op.community in db.communities
    ensures Consistent(Step(db, op))
  {
    var db' := Step(db, op);
    ReorderedIds(db.roles, op.community, op.order);
    forall r, s | r in db'.roles && s in db'.roles && r.id == s.id ensures r == s {
      SameRoleSamePriority(db.roles, op.community, op.order, r, s);
    }
    forall r | r in db'.roles ensures r.id < db'.nextRole && r.communityId in db.communities {
      var i :| 0 <= i < |db'.roles| && db'.roles[i] == r;
      assert db.roles[i] in db.roles;
    }
    forall a | a in db'.assignments
      ensures HasRole(db'.roles, a.roleId, a.communityId) && IsMember(db.members, a.userId, a.communityId)
    {
      var r :| r in db.roles && r.id == a.roleId && r.communityId == a.communityId;
      var i :| 0 <= i < |db.roles| && db.roles[i] == r;
      assert db'.roles[i] in db'.roles;
    }
    KeysKept(db, db');
  }

  lemma {:induction false} SameRoleSamePriority(roles: seq<Role>, community: nat, order: seq<nat>, r: Role, s: Role)
    requires forall x, y :: x in roles && y in roles && x.id == y.id ==> x == y
    requires r in Reordered(roles, community, order) && s in Reordered(roles, community, order) && r.id == s.id
    ensures r == s
  {
    if order != [] {
      var before := Reordered(roles, community, order[..|order| - 1]);
      var after := Reordered(roles, community, order);
      var i :| 0 <= i < |after| && after[i] == r;
      var j :| 0 <= j < |after| && after[j] == s;
      assert before[i] in before && before[j] in before;
      SameRoleSamePriority(roles, community, order[..|order| - 1], before[i], before[j]);
    }
  }

  lemma ConsistentSelectChannel(db: Db, op: Op)
    requires Consistent(db) && op.SelectChannel?
    ensures Consistent(Step(db, op))
  {
    var db' := Step(db, op);
    SameKeysSameMembers(db.members, db'.members);
    forall m | m in db'.members ensures m.communityId in db.communities {
      var i :| 0 <= i < |db'.members| && db'.members[i] == m;
      assert db.members[i] in db.members;
    }
    KeysKept(db, db');
  }

  lemma ConsistentRecomputeDefaults(db: Db, op: Op)
    requires Consistent(db) && op.EditDefaults? && op.community in db.communities
    ensures Consistent(Step(db, op))
  {
    var db' := Step(db, op);
    RecomputedKeepsKeys(db.members, db.communities[op.community], db.roles, db.assignments,
                        MemberIds(db.members, op.community));
    MemberRowsKnown(db);
    KeysKept(db, db');
  }

  lemma ConsistentEditRoleHalf(db: Db, op: Op)
    requires Consistent(db) && op.EditRoleHalf? && op.community in db.communities
    requires HasRole(db.roles, op.role, op.community)
    ensures Consistent(Step(db, op))
  {
    SetRoleKeys(db.roles, op.role, op.name, op.show, op.bits);
    EditedRolesWellKeyed(db, EditRole(op.community, op.role, op.name, op.show, op.bits, []));
    MemberRowsKnown(db);
    KeysKept(db, Step(db, op));
  }

  lemma MembersElsewhereKept(db: Db, c: nat, user: nat, k: nat)
    requires k != c && IsMember(db.members, user, k)
    ensures IsMember(Erased(db, c).members, user, k)
  {
    var m :| m in db.members && RowOf(m, user, k);
    assert m in Erased(db, c).members;
  }

  lemma RolesElsewhereKept(db: Db, c: nat, id: nat, k: nat)
    requires k != c && HasRole(db.roles, id, k)
    ensures HasRole(Erased(db, c).roles, id, k)
  {
    var r :| r in db.roles && r.id == id && r.communityId == k;
    assert r in Erased(db, c).roles;
  }

  lemma ConsistentErased(db: Db, c: nat)
    requires Consistent(db)
    ensures Consistent(Erased(db, c))
  {
    var db' := Erased(db, c);
    forall k | k in db'.communities ensures IsMember(db'.members, db'.communities[k].ownerId, k) {
      MembersElsewhereKept(db, c, db.communities[k].ownerId, k);
    }
    forall a | a in db'.assignments
      ensures HasRole(db'.roles, a.roleId, a.communityId) && IsMember(db'.members, a.userId, a.communityId)
    {
      RolesElsewhereKept(db, c, a.roleId, a.communityId);
      MembersElsewhereKept(db, c, a.userId, a.communityId);
    }
  }

  /** Whatever is called, keys stay well formed. */
  lemma ConsistentStep(db: Db, op: Op)
    requires Consistent(db)
    ensures Consistent(Step(db, op))
  {
    if Step(db, op) != db {
      match op
      case NewCommunity(owner, channel) => ConsistentNewCommunity(db, owner, channel);
      case Join(_, _, _) => ConsistentJoin(db, op);
      case JoinByCode(_, _, _) => ConsistentJoin(db, op);
      case CreateRole(_, _, _, _, _) => ConsistentCreateRole(db, op);
      case EditRole(_, _, _, _, _, _) => ConsistentEditRole(db, op);
      case EditRoleHalf(_, _, _, _, _) => ConsistentEditRoleHalf(db, op);
      case DeleteRole(_, _) => ConsistentDeleteRole(db, op);
      case EditDefaults(_, _) => ConsistentRecomputeDefaults(db, op);
      case EditPriorities(_, _) => ConsistentReorder(db, op);
      case SelectChannel(_, _, _) => ConsistentSelectChannel(db, op);
      case DeleteCommunity(_, c) => ConsistentErased(db, c);
    }
  }
}
