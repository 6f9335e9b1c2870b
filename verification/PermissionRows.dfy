/** What each handler does to one stored row: a right row is right afterwards exactly when the call was safe for it, and
    rows that are recomputed are right whatever they were. */
module PermissionRows {
  import opened Tables
  import opened Permissions
  import opened PermissionRuns

  // ---------------------------------------------------------------- the two recomputes

  /** Looking roles up by id alone gives the same answer as long as assignments stay inside their community. */
  lemma RecomputesAgree(db: Db, c: nat, user: nat, p: Permission)
    requires Consistent(db) && c in db.communities
    ensures EntitledById(db.communities[c], db.roles, db.assignments, user, p)
       <==> Entitled(db.communities[c], db.roles, db.assignments, user, p)
  {
  }

  /** One assignment of another community's role is enough for them to differ. */
  lemma RecomputesCanDiffer()
    ensures var c := Community(1, 1, NO_BITS); var roles := [Role(7, 2, "other", false, 0, OWNER_BITS)];
            var assignments := [Assignment(7, 5, 1)];
            EntitledById(c, roles, assignments, 5, BanMembers) && !Entitled(c, roles, assignments, 5, BanMembers)
  {
  }

  // ---------------------------------------------------------------- joining

  lemma ByIdIsDerived(db: Db, c: nat, user: nat)
    requires Consistent(db) && c in db.communities
    ensures DerivedById(db.communities[c], db.roles, db.assignments, user)
         == Derived(db.communities[c], db.roles, db.assignments, user)
  {
    var b := DerivedById(db.communities[c], db.roles, db.assignments, user);
    forall p ensures Has(b, p) <==> Entitled(db.communities[c], db.roles, db.assignments, user, p) {
      RecomputesAgree(db, c, user, p);
    }
    DerivedIs(db.communities[c], db.roles, db.assignments, user, b);
  }

  lemma JoinByCodeRow(db: Db, op: Op, was: Member)
    requires Consistent(db) && op.JoinByCode? && Applies(db, op)
    requires RowCorrect(db, was) || RowOf(was, op.user, op.community)
    ensures RowCorrect(Step(db, op), RowAfter(db, op, was))
  {
    ByIdIsDerived(db, op.community, op.user);
  }

  /** A row with the plain defaults is right exactly when nothing lifts the user above them. */
  lemma DefaultsSuffice(db: Db, user: nat, c: nat)
    requires Consistent(db) && c in db.communities
    ensures db.communities[c].defaults == Derived(db.communities[c], db.roles, db.assignments, user)
       <==> NewRowSafe(db, Join(user, c, NotBanned))
  {
    var k := db.communities[c];
    if NewRowSafe(db, Join(user, c, NotBanned)) {
      forall p ensures Has(k.defaults, p) <==> Entitled(k, db.roles, db.assignments, user, p) {
        if user != k.ownerId && RoleGrants(db.roles, db.assignments, c, user, p) {
          var r :| r in db.roles && r.communityId == c && Assignment(r.id, user, c) in db.assignments && Has(r.bits, p);
        }
      }
      DerivedIs(k, db.roles, db.assignments, user, k.defaults);
    }
    if k.defaults == Derived(k, db.roles, db.assignments, user) {
      if user == k.ownerId {
        forall p ensures Has(k.defaults, p) == Has(OWNER_BITS, p) { DerivedHas(k, db.roles, db.assignments, user, p); }
        BitsEqual(k.defaults, OWNER_BITS);
      } else {
        forall r | r in db.roles && r.communityId == c && Assignment(r.id, user, c) in db.assignments
          ensures Within(r.bits, k.defaults)
        {
          forall p | Has(r.bits, p) ensures Has(k.defaults, p) { DerivedHas(k, db.roles, db.assignments, user, p); }
        }
      }
    }
  }

  // ---------------------------------------------------------------- role creation

  lemma GrantsWithNewRole(roles: seq<Role>, assignments: seq<Assignment>, role: Role, added: seq<Assignment>,
                          c: nat, user: nat, p: Permission)
    requires forall r :: r in roles ==> r.id != role.id
    requires forall a :: a in assignments ==> a.roleId != role.id
    requires forall a :: a in added ==> a.roleId == role.id
    ensures RoleGrants(roles + [role], assignments + added, c, user, p) <==>
              RoleGrants(roles, assignments, c, user, p)
              || (role.communityId == c && Assignment(role.id, user, c) in added && Has(role.bits, p))
  {
  }

  /** Adding a role lifts exactly the picked members, by exactly its bits. */
  lemma CreatedRoleEntitles(db: Db, op: Op, c: Community, m: Member, p: Permission)
    requires Consistent(db) && op.CreateRole? && op.community in db.communities
    requires m in db.members && m.communityId in db.communities && c == db.communities[m.communityId]
    ensures var db' := Step(db, op);
            RoleGrants(db'.roles, db'.assignments, c.id, m.userId, p) <==>
              RoleGrants(db.roles, db.assignments, c.id, m.userId, p)
              || (c.id == op.community && m.userId in op.picks && Has(op.bits, p))
  {
    var rows := MembersAmong(db.members, op.community, op.picks);
    var role := Role(db.nextRole, op.community, op.name, op.show, |RolesOf(db.roles, op.community)|, op.bits);
    var added := NewAssignments(role.id, op.community, rows);
    NewRoleIdUnused(db);
    GrantsWithNewRole(db.roles, db.assignments, role, added, c.id, m.userId, p);
    if c.id == op.community && m.userId in op.picks {
      assert m in rows;
      var i :| 0 <= i < |rows| && rows[i] == m;
      assert added[i] in added;
    }
  }

  lemma NewRoleIdUnused(db: Db)
    requires Consistent(db)
    ensures forall r :: r in db.roles ==> r.id != db.nextRole
    ensures forall a :: a in db.assignments ==> a.roleId != db.nextRole
  {
  }

  lemma CreateRoleRow(db: Db, op: Op, was: Member)
    requires Consistent(db) && op.CreateRole? && op.community in db.communities && was in db.members
    requires RowCorrect(db, was)
    ensures RowCorrect(Step(db, op), RowGrantedAmong(was, op.community, op.picks, op.bits))
  {
    var db' := Step(db, op);
    var c := db.communities[was.communityId];
    var m := RowGrantedAmong(was, op.community, op.picks, op.bits);
    forall p ensures Has(m.bits, p) <==> Entitled(c, db'.roles, db'.assignments, m.userId, p) {
      CreatedRoleEntitles(db, op, c, was, p);
      OrHas(was.bits, op.bits, p);
      DerivedHas(c, db.roles, db.assignments, was.userId, p);
      if was.userId == c.ownerId { AllHeld(p); }
    }
    DerivedIs(c, db'.roles, db'.assignments, m.userId, m.bits);
  }

  lemma AllHeld(p: Permission)
    ensures Has(OWNER_BITS, p) <==> p != Unlisted
    ensures forall b: Bits :: !Has(b, Unlisted)
  {
  }

  // ---------------------------------------------------------------- role edit

  /** Someone without a role of the community before the edit holds afterwards at most the edited role. */
  lemma EditedEntitles(db: Db, op: Op, m: Member, p: Permission)
    requires Consistent(db) && op.EditRole? && HasRole(db.roles, op.role, op.community)
    requires m in db.members && m.communityId == op.community && !HoldsSome(db, m.userId, op.community)
    ensures RoleGrants(SetRole(db.roles, op.role, op.name, op.show, op.bits),
                       EditedAssignments(db.members, db.assignments, op.community, op.role, op.picks),
                       op.community, m.userId, p)
            <==> m.userId in op.picks && Has(op.bits, p)
  {
  }

  lemma EditRoleElsewhere(db: Db, op: Op, m: Member)
    requires Consistent(db) && op.EditRole? && op.community in db.communities
    requires HasRole(db.roles, op.role, op.community)
    requires m in db.members && m.communityId in db.communities && m.communityId != op.community
    ensures var c := db.communities[m.communityId]; var db' := Step(db, op);
            Derived(c, db.roles, db.assignments, m.userId) == Derived(c, db'.roles, db'.assignments, m.userId)
  {
    var db' := Step(db, op);
    var c := db.communities[m.communityId];
    SetRoleKeys(db.roles, op.role, op.name, op.show, op.bits);
    forall r | r in db.roles && r.communityId == c.id && Assignment(r.id, m.userId, c.id) in db.assignments
      ensures r in db'.roles && Assignment(r.id, m.userId, c.id) in db'.assignments
    {
      assert RoleSet(r, op.role, op.name, op.show, op.bits) == r by {
        var s :| s in db.roles && s.id == op.role && s.communityId == op.community;
      }
    }
    forall r | r in db'.roles && r.communityId == c.id && Assignment(r.id, m.userId, c.id) in db'.assignments
      ensures r in db.roles && Assignment(r.id, m.userId, c.id) in db.assignments
    {
      var y :| y in db.roles && r == RoleSet(y, op.role, op.name, op.show, op.bits);
      var s :| s in db.roles && s.id == op.role && s.communityId == op.community;
      assert y.id != op.role;
    }
    DerivedFrame(c, db.roles, db.assignments, db'.roles, db'.assignments, m.userId);
  }

  lemma EditRoleNewcomer(db: Db, op: Op, was: Member)
    requires Consistent(db) && op.EditRole? && op.community in db.communities
    requires HasRole(db.roles, op.role, op.community)
    requires was in db.members && was.communityId == op.community && !HoldsSome(db, was.userId, op.community)
    ensures var c := db.communities[op.community]; var db' := Step(db, op);
            (if was.userId == c.ownerId then OWNER_BITS else c.defaults)
              == Derived(c, db'.roles, db'.assignments, was.userId)
            <==> (was.userId in op.picks && was.userId != c.ownerId ==> Within(op.bits, c.defaults))
  {
    var c := db.communities[op.community];
    var db' := Step(db, op);
    var u := was.userId;
    var b := if u == c.ownerId then OWNER_BITS else c.defaults;
    forall p
      ensures Entitled(c, db'.roles, db'.assignments, u, p) <==>
              Has(b, p) || (u != c.ownerId && u in op.picks && Has(op.bits, p))
      ensures Has(Derived(c, db'.roles, db'.assignments, u), p) <==> Entitled(c, db'.roles, db'.assignments, u, p)
    {
      EditedEntitles(db, op, was, p);
      DerivedHas(c, db'.roles, db'.assignments, u, p);
    }
    if u in op.picks && u != c.ownerId ==> Within(op.bits, c.defaults) {
      DerivedIs(c, db'.roles, db'.assignments, u, b);
    }
  }

  lemma EditRoleRow(db: Db, op: Op, was: Member)
    requires Consistent(db) && op.EditRole? && Applies(db, op) && was in db.members
    requires RowCorrect(db, was) || Rewritten(db, op, was)
    ensures RowCorrect(Step(db, op), RowAfter(db, op, was)) <==> RowSafe(db, op, was)
  {
    NotHolder(db, was.userId, op.community);
    if was.communityId != op.community {
      EditRoleElsewhere(db, op, was);
    } else if !HoldsSome(db, was.userId, op.community) {
      NoRoleNoGrant(db.communities[op.community], db.roles, db.assignments, was.userId);
      EditRoleNewcomer(db, op, was);
    }
  }

  // ---------------------------------------------------------------- half a role edit

  lemma GrantsSplit(roles: seq<Role>, assignments: seq<Assignment>, r: Role, user: nat, p: Permission)
    requires r in roles && forall s :: s in roles && s.id == r.id ==> s == r
    ensures RoleGrants(roles, assignments, r.communityId, user, p) <==>
              (Assignment(r.id, user, r.communityId) in assignments && Has(r.bits, p))
              || OtherGrants(roles, assignments, r.communityId, r.id, user, p)
  {
  }

  lemma OtherGrantsKept(db: Db, op: Op, c: nat, user: nat, p: Permission)
    requires op.EditRoleHalf?
    ensures OtherGrants(SetRole(db.roles, op.role, op.name, op.show, op.bits), db.assignments, c, op.role, user, p)
       <==> OtherGrants(db.roles, db.assignments, c, op.role, user, p)
  {
    SetRoleKeys(db.roles, op.role, op.name, op.show, op.bits);
  }

  lemma HalfEditGrants(db: Db, op: Op, r: Role, user: nat, p: Permission)
    requires Consistent(db) && op.EditRoleHalf? && Applies(db, op)
    requires r in db.roles && r.id == op.role && r.communityId == op.community
    ensures var roles := SetRole(db.roles, op.role, op.name, op.show, op.bits);
            RoleGrants(roles, db.assignments, op.community, user, p) <==>
              (Assignment(op.role, user, op.community) in db.assignments && Has(op.bits, p))
              || OtherGrants(db.roles, db.assignments, op.community, op.role, user, p)
  {
    var r' := RoleSet(r, op.role, op.name, op.show, op.bits);
    var roles' := SetRole(db.roles, op.role, op.name, op.show, op.bits);
    SetRoleKeys(db.roles, op.role, op.name, op.show, op.bits);
    forall s | s in roles' && s.id == r'.id ensures s == r' {
      var t :| t in db.roles && s == RoleSet(t, op.role, op.name, op.show, op.bits);
    }
    GrantsSplit(roles', db.assignments, r', user, p);
    OtherGrantsKept(db, op, op.community, user, p);
  }

  /** Rewriting a role leaves the roles of other communities alone. */
  lemma SetRoleElsewhere(db: Db, role: nat, community: nat, name: string, show: bool, bits: Bits, r: Role)
    requires Consistent(db) && HasRole(db.roles, role, community) && r.communityId != community
    ensures r in db.roles <==> r in SetRole(db.roles, role, name, show, bits)
  {
    SetRoleKeys(db.roles, role, name, show, bits);
    var s :| s in db.roles && s.id == role && s.communityId == community;
    if r in db.roles { assert RoleSet(r, role, name, show, bits) == r; }
  }

  lemma HalfEditElsewhere(db: Db, op: Op, m: Member)
    requires Consistent(db) && op.EditRoleHalf? && Applies(db, op)
    requires m.communityId in db.communities && m.communityId != op.community
    ensures var c := db.communities[m.communityId];
            Derived(c, db.roles, db.assignments, m.userId) == Derived(c, Step(db, op).roles, db.assignments, m.userId)
  {
    var roles' := SetRole(db.roles, op.role, op.name, op.show, op.bits);
    forall r: Role | r.communityId == m.communityId ensures r in db.roles <==> r in roles' {
      SetRoleElsewhere(db, op.role, op.community, op.name, op.show, op.bits, r);
    }
    DerivedFrame(db.communities[m.communityId], db.roles, db.assignments, roles', db.assignments, m.userId);
  }

  /** Rows of the community are compared permission by permission. */
  lemma SameDerivedIff(c: Community, roles: seq<Role>, assignments: seq<Assignment>, c': Community, roles': seq<Role>,
                       assignments': seq<Assignment>, user: nat)
    ensures Derived(c, roles, assignments, user) == Derived(c', roles', assignments', user)
       <==> forall p :: Entitled(c, roles, assignments, user, p) <==> Entitled(c', roles', assignments', user, p)
  {
    forall p
      ensures Has(Derived(c, roles, assignments, user), p) <==> Entitled(c, roles, assignments, user, p)
      ensures Has(Derived(c', roles', assignments', user), p) <==> Entitled(c', roles', assignments', user, p)
    {
      DerivedHas(c, roles, assignments, user, p);
      DerivedHas(c', roles', assignments', user, p);
    }
    if forall p :: Entitled(c, roles, assignments, user, p) <==> Entitled(c', roles', assignments', user, p) {
      DerivedIs(c', roles', assignments', user, Derived(c, roles, assignments, user));
    }
  }

  lemma EditRoleHalfRow(db: Db, op: Op, was: Member)
    requires Consistent(db) && op.EditRoleHalf? && Applies(db, op) && was in db.members && RowCorrect(db, was)
    ensures RowCorrect(Step(db, op), was) <==> RowSafe(db, op, was)
  {
    if was.communityId != op.community {
      HalfEditElsewhere(db, op, was);
    } else {
      var c, u := db.communities[op.community], was.userId;
      var r :| r in db.roles && r.id == op.role && r.communityId == op.community;
      SameDerivedIff(c, db.roles, db.assignments, c, Step(db, op).roles, db.assignments, u);
      forall p
        ensures u != c.ownerId ==>
                  ((Entitled(c, db.roles, db.assignments, u, p)
                    <==> Entitled(c, Step(db, op).roles, db.assignments, u, p)) <==>
                   (Assignment(op.role, u, c.id) in db.assignments && Has(op.bits, p) != Has(r.bits, p)
                    ==> GrantedOtherwise(db, c, op.role, u, p)))
      {
        GrantsSplit(db.roles, db.assignments, r, u, p);
        HalfEditGrants(db, op, r, u, p);
      }
    }
  }

  // ---------------------------------------------------------------- role delete

  lemma NotHolder(db: Db, user: nat, c: nat)
    ensures user in UserIds(AssignmentsOf(db.assignments, c)) <==> HoldsSome(db, user, c)
  {
  }

  /** Nobody outside the holders of this community loses anything. */
  lemma DeleteRoleFrame(db: Db, op: Op, m: Member)
    requires Consistent(db) && op.DeleteRole? && op.community in db.communities
    requires HasRole(db.roles, op.role, op.community)
    requires m in db.members && m.communityId in db.communities
    requires m.communityId == op.community ==> m.userId !in UserIds(AssignmentsOf(db.assignments, op.community))
    ensures var c := db.communities[m.communityId]; var db' := Step(db, op);
            Derived(c, db.roles, db.assignments, m.userId) == Derived(c, db'.roles, db'.assignments, m.userId)
  {
    var db' := Step(db, op);
    var c := db.communities[m.communityId];
    NotHolder(db, m.userId, op.community);
    var s :| s in db.roles && s.id == op.role && s.communityId == op.community;
    forall r | r in db.roles && r.communityId == c.id && Assignment(r.id, m.userId, c.id) in db.assignments
      ensures r in db'.roles && Assignment(r.id, m.userId, c.id) in db'.assignments
    {
      DeletedRoleUnassigned(db, op, Assignment(r.id, m.userId, c.id));
    }
    DerivedFrame(c, db.roles, db.assignments, db'.roles, db'.assignments, m.userId);
  }

  lemma DeleteRoleRow(db: Db, op: Op, was: Member)
    requires Consistent(db) && op.DeleteRole? && Applies(db, op) && was in db.members
    requires RowCorrect(db, was) || Rewritten(db, op, was)
    ensures RowCorrect(Step(db, op), RowAfter(db, op, was))
  {
    NotHolder(db, was.userId, op.community);
    if was.communityId != op.community || !HoldsSome(db, was.userId, op.community) { DeleteRoleFrame(db, op, was); }
  }

  // ---------------------------------------------------------------- default edit

  lemma DefaultsMatter(c: Community, bits: Bits, roles: seq<Role>, assignments: seq<Assignment>, user: nat,
                       p: Permission)
    requires user != c.ownerId
    ensures (Entitled(c, roles, assignments, user, p) <==> Entitled(c.(defaults := bits), roles, assignments, user, p))
       <==> (Has(bits, p) != Has(c.defaults, p) ==> RoleGrants(roles, assignments, c.id, user, p))
  {
  }

  lemma StaleDefaults(c: Community, bits: Bits, roles: seq<Role>, assignments: seq<Assignment>, user: nat)
    ensures Derived(c, roles, assignments, user) == Derived(c.(defaults := bits), roles, assignments, user)
       <==> (user != c.ownerId ==>
               forall p :: Has(bits, p) != Has(c.defaults, p) ==> RoleGrants(roles, assignments, c.id, user, p))
  {
    SameDerivedIff(c, roles, assignments, c.(defaults := bits), roles, assignments, user);
    if user != c.ownerId {
      forall p
        ensures (Entitled(c, roles, assignments, user, p)
                 <==> Entitled(c.(defaults := bits), roles, assignments, user, p))
           <==> (Has(bits, p) != Has(c.defaults, p) ==> RoleGrants(roles, assignments, c.id, user, p))
      {
        DefaultsMatter(c, bits, roles, assignments, user, p);
      }
    }
  }

  lemma EditDefaultsTables(db: Db, op: Op)
    requires op.EditDefaults? && op.community in db.communities
    ensures var db' := Step(db, op);
            && db'.communities == db.communities[op.community := db.communities[op.community].(defaults := op.bits)]
            && db'.roles == db.roles && db'.assignments == db.assignments
  {
  }

  /** A row of the community, recomputed with the old defaults. */
  lemma RecomputedWithOld(db: Db, op: Op, was: Member)
    requires Consistent(db) && op.EditDefaults? && op.community in db.communities
    requires was in db.members && was.communityId == op.community
    ensures RowAfter(db, op, was)
         == was.(bits := Derived(db.communities[op.community], db.roles, db.assignments, was.userId))
  {
    assert was.userId in MemberIds(db.members, op.community);
  }

  lemma EditDefaultsRow(db: Db, op: Op, was: Member)
    requires Consistent(db) && op.EditDefaults? && op.community in db.communities && was in db.members
    requires RowCorrect(db, was) || was.communityId == op.community
    ensures RowCorrect(Step(db, op), RowAfter(db, op, was)) <==> RowSafe(db, op, was)
  {
    EditDefaultsTables(db, op);
    if was.communityId == op.community {
      RecomputedWithOld(db, op, was);
      StaleDefaults(db.communities[op.community], op.bits, db.roles, db.assignments, was.userId);
    }
  }

  // ---------------------------------------------------------------- the rest

  lemma EditPrioritiesRow(db: Db, op: Op, was: Member)
    requires Consistent(db) && op.EditPriorities? && op.community in db.communities && RowCorrect(db, was)
    ensures RowCorrect(Step(db, op), was)
  {
    var db' := Step(db, op);
    ReorderedIds(db.roles, op.community, op.order);
    forall r | r in db.roles
      ensures exists s :: s in db'.roles && s.id == r.id && s.communityId == r.communityId && s.bits == r.bits
    {
      var i :| 0 <= i < |db.roles| && db.roles[i] == r;
      assert db'.roles[i] in db'.roles;
    }
    forall s | s in db'.roles
      ensures exists r :: r in db.roles && s.id == r.id && s.communityId == r.communityId && s.bits == r.bits
    {
      var i :| 0 <= i < |db'.roles| && db'.roles[i] == s;
      assert db.roles[i] in db.roles;
    }
    DerivedFrame(db.communities[was.communityId], db.roles, db.assignments, db'.roles, db'.assignments, was.userId);
  }

  lemma DeleteCommunityRow(db: Db, op: Op, was: Member)
    requires Consistent(db) && op.DeleteCommunity? && Applies(db, op) && RowCorrect(db, was)
    requires was.communityId != op.community
    ensures RowCorrect(Step(db, op), was)
  {
    var db' := Erased(db, op.community);
    DerivedFrame(db.communities[was.communityId], db.roles, db.assignments, db'.roles, db'.assignments, was.userId);
  }

  // ---------------------------------------------------------------- main results, row by row

  /** One call on one row. If the row was right before, or the call rewrites it, then it is right afterwards exactly
      when the call was safe for it; nothing is asked of any other row. */
  lemma RowCorrectIff(db: Db, op: Op, m: Member)
    requires Consistent(db) && m in db.members && Survives(db, op, m)
    requires RowCorrect(db, m) || Rewritten(db, op, m)
    ensures RowCorrect(Step(db, op), RowAfter(db, op, m)) <==> RowSafe(db, op, m)
  {
    if Applies(db, op) {
      match op
      case NewCommunity(_, _) =>
      case Join(_, _, _) =>
      case JoinByCode(_, _, _) => JoinByCodeRow(db, op, m);
      case CreateRole(_, _, _, _, _) => CreateRoleRow(db, op, m);
      case EditRole(_, _, _, _, _, _) => EditRoleRow(db, op, m);
      case EditRoleHalf(_, _, _, _, _) => EditRoleHalfRow(db, op, m);
      case DeleteRole(_, _) => DeleteRoleRow(db, op, m);
      case EditDefaults(_, _) => EditDefaultsRow(db, op, m);
      case EditPriorities(_, _) => EditPrioritiesRow(db, op, m);
      case SelectChannel(_, _, _) =>
      case DeleteCommunity(_, _) => DeleteCommunityRow(db, op, m);
    }
  }

  lemma NewRowCorrectIff(db: Db, op: Op)
    requires Consistent(db) && NewRow(db, op).Some?
    ensures RowCorrect(Step(db, op), NewRow(db, op).value) <==> NewRowSafe(db, op)
  {
    match op
    case NewCommunity(_, _) =>
    case Join(user, c, _) => DefaultsSuffice(db, user, c);
    case JoinByCode(user, c, _) => ByIdIsDerived(db, c, user);
  }
}
