/** What each permission handler leaves in the tables, told in the tables' own terms. */
module PermissionEffects {
  import opened Tables
  import opened Permissions
  import opened PermissionRows

  /** What a user is owed: everything as owner, else the defaults and what each role of the community held grants. */
  ghost predicate Owed(c: Community, roles: seq<Role>, assignments: seq<Assignment>, user: nat, p: Permission) {
    && p != Unlisted
    && (user == c.ownerId || Has(c.defaults, p) || exists r :: RoleOwes(c.id, r, roles, assignments, user, p))
  }

  predicate RoleOwes(c: nat, r: Role, roles: seq<Role>, assignments: seq<Assignment>, user: nat, p: Permission) {
    r in roles && r.communityId == c && Assignment(r.id, user, c) in assignments && Has(r.bits, p)
  }

  lemma DerivedIsOwed(c: Community, roles: seq<Role>, assignments: seq<Assignment>, user: nat, p: Permission)
    ensures Has(Derived(c, roles, assignments, user), p) <==> Owed(c, roles, assignments, user, p)
  {
    DerivedHas(c, roles, assignments, user, p);
    if r :| r in roles && r.communityId == c.id && Assignment(r.id, user, c.id) in assignments && Has(r.bits, p) {
      assert RoleOwes(c.id, r, roles, assignments, user, p);
    }
  }

  /** The row is the old one but for its bits, which are exactly what the user is owed. */
  ghost predicate Renewed(was: Member, now: Member, c: Community, roles: seq<Role>, assignments: seq<Assignment>) {
    && now == was.(bits := now.bits)
    && forall p :: Has(now.bits, p) <==> Owed(c, roles, assignments, was.userId, p)
  }

  lemma RecomputedRenews(m: Member, c: Community, roles: seq<Role>, assignments: seq<Assignment>, users: seq<nat>)
    ensures var now := RowRecomputed(m, c, roles, assignments, users);
            if m.communityId == c.id && m.userId in users then Renewed(m, now, c, roles, assignments) else now == m
  {
    forall p ensures Has(Derived(c, roles, assignments, m.userId), p) <==> Owed(c, roles, assignments, m.userId, p) {
      DerivedIsOwed(c, roles, assignments, m.userId, p);
    }
  }

  /** Nothing but these tables. */
  ghost predicate OnlyMembers(db: Db, next: Db) {
    next == db.(members := next.members)
  }

  // ---------------------------------------------------------------- communities and their members

  /** A new community with its owner, who holds every permission, and the defaults of the table's columns. */
  lemma NewCommunityApplied(db: Db, owner: nat, channel: nat)
    ensures var next, c := Step(db, NewCommunity(owner, channel)), db.nextCommunity;
            && next.communities
               == db.communities[c := Community(c, owner, Bits(true, false, false, true, false, false, true, true))]
            && next.members == db.members
              + [Member(owner, c, channel, Bits(true, true, true, true, true, true, true, true))]
            && next.roles == db.roles && next.assignments == db.assignments
            && next.nextCommunity == c + 1 && next.nextRole == db.nextRole
  {
  }

  /** A join that goes through adds one row with the community's defaults; any other changes nothing. */
  lemma JoinApplied(db: Db, user: nat, c: nat, check: BanCheck)
    ensures Step(db, Join(user, c, check))
         == if c in db.communities && check == NotBanned
            then db.(members := db.members + [Member(user, c, 0, db.communities[c].defaults)]) else db
  {
  }

  lemma ByIdIsOwed(db: Db, c: nat, user: nat, p: Permission)
    requires Consistent(db) && c in db.communities
    ensures Has(DerivedById(db.communities[c], db.roles, db.assignments, user), p)
       <==> Owed(db.communities[c], db.roles, db.assignments, user, p)
  {
    ByIdIsDerived(db, c, user);
    DerivedIsOwed(db.communities[c], db.roles, db.assignments, user, p);
  }

  /** A join by code adds one row, and it and every row of the user there hold what the user is owed. */
  lemma JoinByCodeApplied(db: Db, op: Op)
    requires Consistent(db) && op.JoinByCode?
    ensures op.community !in db.communities || op.check != NotBanned ==> Step(db, op) == db
    ensures op.community in db.communities && op.check == NotBanned ==>
              var next, c := Step(db, op), db.communities[op.community];
              && OnlyMembers(db, next) && |next.members| == |db.members| + 1
              && (forall i :: 0 <= i < |db.members| ==>
                    if db.members[i].userId == op.user && db.members[i].communityId == op.community
                    then Renewed(db.members[i], next.members[i], c, db.roles, db.assignments)
                    else next.members[i] == db.members[i])
              && (var row := next.members[|db.members|];
                  Renewed(Member(op.user, op.community, 0, row.bits), row, c, db.roles, db.assignments))
  {
    if op.community in db.communities {
      forall p
        ensures Has(DerivedById(db.communities[op.community], db.roles, db.assignments, op.user), p)
           <==> Owed(db.communities[op.community], db.roles, db.assignments, op.user, p)
      {
        ByIdIsOwed(db, op.community, op.user, p);
      }
    }
  }

  /** Only the user's rows in that community change, and only in the channel selected. */
  lemma SelectChannelApplied(db: Db, user: nat, c: nat, channel: nat)
    ensures var next := Step(db, SelectChannel(user, c, channel));
            && OnlyMembers(db, next) && |next.members| == |db.members|
            && forall i :: 0 <= i < |db.members| ==>
                 var m := db.members[i];
                 next.members[i] == if m.userId == user && m.communityId == c
                                    then Member(user, c, channel, m.bits) else m
  {
  }

  /** The owner's request takes the community with its rows, roles and assignments; nobody else's takes anything. */
  lemma DeleteCommunityApplied(db: Db, user: nat, c: nat)
    ensures var next := Step(db, DeleteCommunity(user, c));
            if c in db.communities && db.communities[c].ownerId == user then
              && next.communities == db.communities - {c}
              && (forall m: Member :: m in next.members <==> m in db.members && m.communityId != c)
              && (forall r: Role :: r in next.roles <==> r in db.roles && r.communityId != c)
              && (forall a: Assignment :: a in next.assignments <==> a in db.assignments && a.communityId != c)
              && next.nextCommunity == db.nextCommunity && next.nextRole == db.nextRole
            else next == db
  {
  }

  // ---------------------------------------------------------------- roles

  /** The places of the community's roles. */
  function Places(roles: seq<Role>, c: nat): set<nat> {
    set i: nat | i < |roles| && roles[i].communityId == c
  }

  lemma PlacesNext(init: seq<Role>, last: Role, c: nat)
    ensures |Places(init + [last], c)| == |Places(init, c)| + if last.communityId == c then 1 else 0
  {
    assert Places(init + [last], c) == Places(init, c) + if last.communityId == c then {|init|} else {};
  }

  lemma RolesOfOne(last: Role, c: nat)
    ensures RolesOf([last], c) == if last.communityId == c then [last] else []
  {
    assert [last][1..] == [];
  }

  lemma {:induction false} RolesAreCounted(roles: seq<Role>, c: nat)
    ensures |RolesOf(roles, c)| == |Places(roles, c)|
  {
    if roles == [] {
      assert Places(roles, c) == {};
    } else {
      var init, last := roles[..|roles| - 1], roles[|roles| - 1];
      RolesAreCounted(init, c);
      RolesOfNext(init, last, c);
      PlacesNext(init, last, c);
      assert roles == init + [last];
    }
  }

  lemma RolesOfNext(init: seq<Role>, last: Role, c: nat)
    ensures |RolesOf(init + [last], c)| == |RolesOf(init, c)| + if last.communityId == c then 1 else 0
  {
    WhereSplit(init, [last], InCommunity(c));
    RolesOfOne(last, c);
  }

  /** A new role is one more row under the next number, as submitted and last in its community; the picked members
      have it besides what they had, and its permissions besides theirs. */
  lemma RoleCreateApplied(db: Db, op: Op)
    requires op.CreateRole? && op.community in db.communities
    ensures var next := Step(db, op);
            && next.roles == db.roles + [Role(db.nextRole, op.community, op.name, op.show,
                                              |Places(db.roles, op.community)|, op.bits)]
            && next.nextRole == db.nextRole + 1 && next.nextCommunity == db.nextCommunity
            && next.communities == db.communities
    ensures forall a: Assignment :: a in Step(db, op).assignments <==>
              || a in db.assignments
              || (a.roleId == db.nextRole && a.communityId == op.community && a.userId in op.picks
                  && exists m :: m in db.members && m.userId == a.userId && m.communityId == op.community)
    ensures var next := Step(db, op);
            && |next.members| == |db.members|
            && forall i :: 0 <= i < |db.members| ==>
                 var m, now := db.members[i], next.members[i];
                 && now == m.(bits := now.bits)
                 && forall p :: Has(now.bits, p) <==>
                      Has(m.bits, p) || (m.communityId == op.community && m.userId in op.picks && Has(op.bits, p))
  {
    RolesAreCounted(db.roles, op.community);
    forall a: Assignment ensures a in Step(db, op).assignments <==> a in db.assignments || NewlyAssigned(db, op, a) {
      CreatedAssignment(db, op, a);
    }
    forall i, p | 0 <= i < |db.members|
      ensures Has(Or(db.members[i].bits, op.bits), p) <==> Has(db.members[i].bits, p) || Has(op.bits, p)
    {
      OrHas(db.members[i].bits, op.bits, p);
    }
  }

  lemma UnknownCommunityNoRole(db: Db, op: Op)
    requires op.CreateRole? && op.community !in db.communities
    ensures Step(db, op) == db
  {
  }

  ghost predicate NewlyAssigned(db: Db, op: Op, a: Assignment)
    requires op.CreateRole?
  {
    && a.roleId == db.nextRole && a.communityId == op.community && a.userId in op.picks
    && exists m :: m in db.members && m.userId == a.userId && m.communityId == op.community
  }

  lemma CreatedAssignment(db: Db, op: Op, a: Assignment)
    requires op.CreateRole? && op.community in db.communities
    ensures a in Step(db, op).assignments <==> a in db.assignments || NewlyAssigned(db, op, a)
  {
    var rows := MembersAmong(db.members, op.community, op.picks);
    var added := NewAssignments(db.nextRole, op.community, rows);
    if a in added {
      var i :| 0 <= i < |added| && added[i] == a;
      assert rows[i] in rows;
    }
    if NewlyAssigned(db, op, a) {
      var m :| m in db.members && m.userId == a.userId && m.communityId == op.community;
      assert m in rows;
      var i :| 0 <= i < |rows| && rows[i] == m;
      assert added[i] == a;
    }
  }

  /** Who held some role of the community before. */
  ghost predicate HeldSome(db: Db, user: nat, c: nat) {
    exists a :: a in db.assignments && a.userId == user && a.communityId == c
  }

  /** Rows of users who held some role of the community are renewed from the tables as they are now; no other is
      touched. */
  ghost predicate HoldersRenewed(db: Db, next: Db, c: nat)
    requires c in db.communities
  {
    && next.communities == db.communities && next.nextCommunity == db.nextCommunity && next.nextRole == db.nextRole
    && |next.members| == |db.members|
    && forall i :: 0 <= i < |db.members| ==>
         if db.members[i].communityId == c && HeldSome(db, db.members[i].userId, c)
         then Renewed(db.members[i], next.members[i], db.communities[c], next.roles, next.assignments)
         else next.members[i] == db.members[i]
  }

  lemma HoldersAreRenewed(db: Db, next: Db, c: nat)
    requires Consistent(db) && c in db.communities
    requires next.communities == db.communities && next.nextCommunity == db.nextCommunity
    requires next.nextRole == db.nextRole
    requires next.members == Recomputed(db.members, db.communities[c], next.roles, next.assignments, Holders(db, c))
    ensures HoldersRenewed(db, next, c)
  {
    forall i | 0 <= i < |db.members|
      ensures if db.members[i].communityId == c && HeldSome(db, db.members[i].userId, c)
              then Renewed(db.members[i], next.members[i], db.communities[c], next.roles, next.assignments)
              else next.members[i] == db.members[i]
    {
      RecomputedRenews(db.members[i], db.communities[c], next.roles, next.assignments, Holders(db, c));
      assert db.members[i].userId in Holders(db, c) <==> HeldSome(db, db.members[i].userId, c);
    }
  }

  lemma RoleEditRenews(db: Db, op: Op)
    requires Consistent(db) && op.EditRole? && op.community in db.communities
    requires HasRole(db.roles, op.role, op.community)
    ensures HoldersRenewed(db, Step(db, op), op.community)
  {
    HoldersAreRenewed(db, Step(db, op), op.community);
  }

  lemma RoleDeleteRenews(db: Db, op: Op)
    requires Consistent(db) && op.DeleteRole? && op.community in db.communities
    requires HasRole(db.roles, op.role, op.community)
    ensures HoldersRenewed(db, Step(db, op), op.community)
  {
    HoldersAreRenewed(db, Step(db, op), op.community);
  }

  /** A role of another community, or of none, is neither edited nor deleted. */
  lemma UnknownRoleIgnored(db: Db, op: Op)
    requires op.EditRole? || op.EditRoleHalf? || op.DeleteRole?
    requires op.community in db.communities ==>
               forall r :: r in db.roles && r.id == op.role ==> r.communityId != op.community
    ensures Step(db, op) == db
  {
  }

  /** Half an edit rewords the role and nothing else. */
  lemma RoleHalfEditApplied(db: Db, op: Op)
    requires op.EditRoleHalf? && op.community in db.communities && HasRole(db.roles, op.role, op.community)
    ensures var next := Step(db, op); next == db.(roles := next.roles) && |next.roles| == |db.roles|
    ensures forall i :: 0 <= i < |db.roles| ==>
              var r, now := db.roles[i], Step(db, op).roles[i];
              now == if r.id == op.role then Role(r.id, r.communityId, op.name, op.show, r.priority, op.bits) else r
  {
  }

  /** New defaults are the community's from then on; its rows hold what their users were owed under the old ones. */
  lemma DefaultsEditApplied(db: Db, op: Op)
    requires Consistent(db) && op.EditDefaults? && op.community in db.communities
    ensures var next, c := Step(db, op), db.communities[op.community];
            && next.communities == db.communities[op.community := Community(c.id, c.ownerId, op.bits)]
            && next.roles == db.roles && next.assignments == db.assignments
            && next.nextCommunity == db.nextCommunity && next.nextRole == db.nextRole
            && |next.members| == |db.members|
            && forall i :: 0 <= i < |db.members| ==>
                 if db.members[i].communityId == op.community
                 then Renewed(db.members[i], next.members[i], c, db.roles, db.assignments)
                 else next.members[i] == db.members[i]
  {
    var next, c := Step(db, op), db.communities[op.community];
    forall i | 0 <= i < |db.members|
      ensures if db.members[i].communityId == op.community
              then Renewed(db.members[i], next.members[i], c, db.roles, db.assignments)
              else next.members[i] == db.members[i]
    {
      RecomputedRenews(db.members[i], c, db.roles, db.assignments, MemberIds(db.members, op.community));
      assert db.members[i] in db.members;
    }
  }

  /** A reorder rewrites priorities and nothing else of any role, and no other table. */
  lemma PrioritiesEditApplied(db: Db, op: Op)
    requires op.EditPriorities?
    ensures var next := Step(db, op);
            && next == db.(roles := next.roles) && |next.roles| == |db.roles|
            && (op.community !in db.communities ==> next == db)
            && forall i :: 0 <= i < |db.roles| ==>
                 var r, now := db.roles[i], next.roles[i];
                 now == Role(r.id, r.communityId, r.name, r.showOnlineDifferently, now.priority, r.bits)
  {
  }
}
