/** The permission handlers as the program runs them: statements and loops over mutable tables and a mutable cache.
    Every method is tied to the table function of the same handler. */
module Store {
  import opened ByteText
  import opened Tables
  import opened Permissions
  import opened Cache

  method ServerOwnerPermissions() returns (permissions: Bits)
    ensures forall p :: Has(permissions, p) <==> p != Unlisted
  {
    permissions := Bits(true, true, true, true, true, true, true, true);
  }

  /** The eight conditional assignments of one role to the permissions gathered so far. */
  method AddRole(before: Bits, role: Role) returns (permissions: Bits)
    ensures permissions == Or(before, role.bits)
  {
    permissions := before;
    if role.bits.viewChannels { permissions := permissions.(viewChannels := true); }
    if role.bits.manageChannels { permissions := permissions.(manageChannels := true); }
    if role.bits.manageCommunity { permissions := permissions.(manageCommunity := true); }
    if role.bits.createInvite { permissions := permissions.(createInvite := true); }
    if role.bits.kickMembers { permissions := permissions.(kickMembers := true); }
    if role.bits.banMembers { permissions := permissions.(banMembers := true); }
    if role.bits.sendMessages { permissions := permissions.(sendMessages := true); }
    if role.bits.attachMedia { permissions := permissions.(attachMedia := true); }
  }

  /** The lookup table keyed by "role-user". A key is present exactly for an assignment of the community. */
  method BuildRolesUserMap(assignments: seq<Assignment>, community: nat) returns (rolesUserMap: map<Bytes, bool>)
    ensures forall r, u :: RoleUserKey(r, u) in rolesUserMap <==> Assignment(r, u, community) in assignments
  {
    var rows := AssignmentsOf(assignments, community);
    rolesUserMap := map[];
    for i := 0 to |rows|
      invariant forall r, u :: RoleUserKey(r, u) in rolesUserMap <==> Assignment(r, u, community) in rows[..i]
    {
      var row := rows[i];
      assert row in rows && row == Assignment(row.roleId, row.userId, community);
      assert rows[..i + 1] == rows[..i] + [row];
      forall r, u | RoleUserKey(r, u) == RoleUserKey(row.roleId, row.userId)
        ensures r == row.roleId && u == row.userId
      {
        RoleUserKeyInjective(r, u, row.roleId, row.userId);
      }
      rolesUserMap := rolesUserMap[RoleUserKey(row.roleId, row.userId) := true];
    }
    assert rows[..|rows|] == rows;
  }

  /** One user's permissions in the batch recompute. */
  method UserPermissions(uid: nat, community: Community, roles: seq<Role>, rolesUserMap: map<Bytes, bool>,
                         ghost allRoles: seq<Role>, ghost assignments: seq<Assignment>)
    returns (permissions: Bits)
    requires roles == RolesOf(allRoles, community.id)
    requires forall r, u :: RoleUserKey(r, u) in rolesUserMap <==> Assignment(r, u, community.id) in assignments
    ensures permissions == Derived(community, allRoles, assignments, uid)
  {
    permissions := community.defaults;
    if uid == community.ownerId {
      permissions := ServerOwnerPermissions();
      forall p ensures Has(permissions, p) <==> Entitled(community, allRoles, assignments, uid, p) {}
    } else {
      for i := 0 to |roles|
        invariant forall p :: Has(permissions, p) <==>
          Has(community.defaults, p) || RoleGrants(roles[..i], assignments, community.id, uid, p)
      {
        var role := roles[i];
        assert role in roles;
        assert roles[..i + 1] == roles[..i] + [role];
        ghost var before := permissions;
        if RoleUserKey(role.id, uid) in rolesUserMap {
          permissions := AddRole(permissions, role);
          forall p ensures Has(permissions, p) <==> Has(before, p) || Has(role.bits, p) { OrHas(before, role.bits, p); }
        }
        GrantsOneMore(roles[..i], role, assignments, community.id, uid);
      }
      assert roles[..|roles|] == roles;
    }
    DerivedIs(community, allRoles, assignments, uid, permissions);
  }

  lemma GrantsOneMore(roles: seq<Role>, role: Role, assignments: seq<Assignment>, community: nat, uid: nat)
    requires role.communityId == community
    ensures forall p :: RoleGrants(roles + [role], assignments, community, uid, p) <==>
      RoleGrants(roles, assignments, community, uid, p)
        || (Assignment(role.id, uid, community) in assignments && Has(role.bits, p))
  {
  }

  /** Midway through the grants: no row lost or gained more than the new bits, and the handled rows have them all. */
  ghost predicate PartlyGranted(before: seq<Member>, now: seq<Member>, handled: seq<Member>, c: nat, picks: seq<nat>,
                                bits: Bits) {
    |now| == |before| && forall i :: 0 <= i < |before| ==> PartlyGrantedRow(before[i], now[i], handled, c, picks, bits)
  }

  ghost predicate PartlyGrantedRow(was: Member, m: Member, handled: seq<Member>, c: nat, picks: seq<nat>, bits: Bits) {
    && m == was.(bits := m.bits)
    && Within(was.bits, m.bits)
    && Within(m.bits, RowGrantedAmong(was, c, picks, bits).bits)
    && (was in handled ==> Within(bits, m.bits))
  }

  lemma NoneGranted(before: seq<Member>, c: nat, picks: seq<nat>, bits: Bits)
    ensures PartlyGranted(before, before, [], c, picks, bits)
  {
  }

  lemma OneMoreGranted(before: seq<Member>, now: seq<Member>, handled: seq<Member>, row: Member, c: nat,
                       picks: seq<nat>, bits: Bits)
    requires PartlyGranted(before, now, handled, c, picks, bits)
    requires row.communityId == c && row.userId in picks
    ensures PartlyGranted(before, GrantBits(now, row.userId, row.communityId, Minus(bits, row.bits)),
                          handled + [row], c, picks, bits)
  {
    var next := GrantBits(now, row.userId, row.communityId, Minus(bits, row.bits));
    forall i | 0 <= i < |before| ensures PartlyGrantedRow(before[i], next[i], handled + [row], c, picks, bits) {
      assert PartlyGrantedRow(before[i], now[i], handled, c, picks, bits);
      GrantedBitsBounds(before[i].bits, now[i].bits, row.bits, bits);
    }
  }

  /** Bit arithmetic of one grant: bounds kept, and complete for the row the grant was computed from. */
  lemma GrantedBitsBounds(was: Bits, now: Bits, selected: Bits, bits: Bits)
    requires Within(was, now)
    ensures Within(was, Or(now, Minus(bits, selected)))
    ensures Within(now, Or(was, bits)) ==> Within(Or(now, Minus(bits, selected)), Or(was, bits))
    ensures Within(bits, now) ==> Within(bits, Or(now, Minus(bits, selected)))
    ensures was == selected ==> Within(bits, Or(now, Minus(bits, selected)))
  {
    var granted := Minus(bits, selected);
    forall p ensures Has(granted, p) <==> Has(bits, p) && !Has(selected, p) { MinusHas(bits, selected, p); }
    forall p ensures Has(Or(now, granted), p) <==> Has(now, p) || Has(granted, p) { OrHas(now, granted, p); }
    forall p ensures Has(Or(was, bits), p) <==> Has(was, p) || Has(bits, p) { OrHas(was, bits, p); }
    BoundsFollow(was, now, selected, bits, granted, Or(now, granted), Or(was, bits));
  }

  lemma BoundsFollow(was: Bits, now: Bits, selected: Bits, bits: Bits, granted: Bits, next: Bits, most: Bits)
    requires Within(was, now)
    requires forall p :: Has(granted, p) <==> Has(bits, p) && !Has(selected, p)
    requires forall p :: Has(next, p) <==> Has(now, p) || Has(granted, p)
    requires forall p :: Has(most, p) <==> Has(was, p) || Has(bits, p)
    ensures Within(was, next)
    ensures Within(now, most) ==> Within(next, most)
    ensures Within(bits, now) ==> Within(bits, next)
    ensures was == selected ==> Within(bits, next)
  {
  }

  /** The table after the conditional updates of each row in turn. */
  function GrantEach(before: seq<Member>, rows: seq<Member>, bits: Bits): seq<Member> {
    if rows == [] then before
    else
      var row := rows[|rows| - 1];
      GrantBits(GrantEach(before, rows[..|rows| - 1], bits), row.userId, row.communityId, Minus(bits, row.bits))
  }

  lemma {:induction false} GrantEachPartly(before: seq<Member>, rows: seq<Member>, c: nat, picks: seq<nat>, bits: Bits)
    requires forall m :: m in rows ==> m.communityId == c && m.userId in picks
    ensures PartlyGranted(before, GrantEach(before, rows, bits), rows, c, picks, bits)
  {
    if rows == [] {
      NoneGranted(before, c, picks, bits);
    } else {
      var init, row := rows[..|rows| - 1], rows[|rows| - 1];
      assert init + [row] == rows;
      GrantEachPartly(before, init, c, picks, bits);
      OneMoreGranted(before, GrantEach(before, init, bits), init, row, c, picks, bits);
    }
  }

  lemma AllGranted(before: seq<Member>, now: seq<Member>, c: nat, picks: seq<nat>, bits: Bits)
    requires PartlyGranted(before, now, MembersAmong(before, c, picks), c, picks, bits)
    ensures now == GrantedAmong(before, c, picks, bits)
  {
    forall i | 0 <= i < |before| ensures now[i] == RowGrantedAmong(before[i], c, picks, bits) {
      assert PartlyGrantedRow(before[i], now[i], MembersAmong(before, c, picks), c, picks, bits);
      assert before[i] in before;
      var goal := RowGrantedAmong(before[i], c, picks, bits).bits;
      forall p ensures Has(now[i].bits, p) == Has(goal, p) { OrHas(before[i].bits, bits, p); }
      BitsEqual(now[i].bits, goal);
    }
  }

  /** Granting each selected row its missing columns, one row after the other, grants every selected user the bits. */
  lemma GrantEachIsGranted(before: seq<Member>, c: nat, picks: seq<nat>, bits: Bits)
    ensures GrantEach(before, MembersAmong(before, c, picks), bits) == GrantedAmong(before, c, picks, bits)
  {
    var rows := MembersAmong(before, c, picks);
    GrantEachPartly(before, rows, c, picks, bits);
    AllGranted(before, GrantEach(before, rows, bits), c, picks, bits);
  }

  class Database {
    var communities: map<nat, Community>
    var roles: seq<Role>
    var assignments: seq<Assignment>
    var members: seq<Member>
    var nextCommunity: nat
    var nextRole: nat
    var cache: map<Bytes, Member>
    var pending: seq<Fill>
    var asking: seq<Question>

    constructor ()
      ensures State() == World(EMPTY_DB, map[], [], [])
    {
      communities, roles, assignments, members := map[], [], [], [];
      nextCommunity, nextRole := 1, 1;
      cache, pending, asking := map[], [], [];
    }

    ghost function Tables(): Db
      reads this
    {
      Db(communities, roles, assignments, members, nextCommunity, nextRole)
    }

    ghost function State(): World
      reads this
    {
      World(Tables(), cache, pending, asking)
    }

    /** Communities are stored under their own id, as a primary key guarantees. */
    ghost predicate Keyed()
      reads this
    {
      forall c :: c in communities ==> communities[c].id == c
    }

    /** Answers from the cache, or from the table while starting a cache write; a cache error refuses. */
    method HasCommunityPermission(uId: nat, cId: nat, permission: Permission, cacheUp: bool) returns (allowed: bool)
      modifies this`pending
      ensures State() == if cacheUp then Asked(old(State()), uId, cId) else old(State())
      ensures allowed <==> cacheUp && AskAnswer(old(State()), uId, cId, permission)
    {
      if !cacheUp { return false; }
      var rk := PermissionRedisKey(uId, cId);
      if rk in cache { return Has(cache[rk].bits, permission); }
      var row := Lookup(members, uId, cId);
      if row.None? { return false; }
      pending := pending + [Fill(rk, row.value)];
      allowed := Has(row.value.bits, permission);
    }

    /** A started cache write arrives. */
    method FillLands(i: nat)
      requires i < |pending|
      modifies this`cache, this`pending
      ensures State() == Landed(old(State()), i)
    {
      cache := cache[pending[i].key := pending[i].row];
      pending := RemoveAt(pending, i);
    }

    /** Recompute and store the permissions of every listed user, and delete their cache entries. */
    method RecalculateForUsers(userIds: seq<nat>, community: Community)
      modifies this`members, this`cache
      ensures members == Recomputed(old(members), community, roles, assignments, userIds)
      ensures cache == old(cache) - Keys(UserSet(userIds), community.id)
    {
      if |userIds| == 0 {
        assert members == Recomputed(old(members), community, roles, assignments, userIds);
        return;
      }
      var communityRoles := RolesOf(roles, community.id);
      var rolesUserMap := BuildRolesUserMap(assignments, community.id);
      for i := 0 to |userIds|
        invariant members == Recomputed(old(members), community, roles, assignments, userIds[..i])
        invariant cache == old(cache) - Keys(UserSet(userIds[..i]), community.id)
      {
        var uid := userIds[i];
        assert userIds[..i + 1] == userIds[..i] + [uid];
        var permissions := UserPermissions(uid, community, communityRoles, rolesUserMap, roles, assignments);
        members := SetBits(members, uid, community.id, permissions);
        cache := cache - {PermissionRedisKey(uid, community.id)};
        assert Keys(UserSet(userIds[..i + 1]), community.id)
            == Keys(UserSet(userIds[..i]), community.id) + {PermissionRedisKey(uid, community.id)};
      }
      assert userIds[..|userIds|] == userIds;
    }

    /** Recompute and store the permissions of one user, looking the held roles up by id. */
    method RecalculateForUser(uId: nat, community: Community) returns (permissions: Bits)
      modifies this`members, this`cache
      ensures forall p :: Has(permissions, p) <==> EntitledById(community, roles, assignments, uId, p)
      ensures members == SetBits(old(members), uId, community.id, permissions)
      ensures cache == old(cache) - {PermissionRedisKey(uId, community.id)}
    {
      permissions := community.defaults;
      if uId == community.ownerId {
        permissions := ServerOwnerPermissions();
        forall p ensures Has(permissions, p) <==> EntitledById(community, roles, assignments, uId, p) {}
      } else {
        var ids := RoleIds(AssignmentsOfUser(assignments, community.id, uId));
        var held := RolesById(roles, ids);
        for i := 0 to |held|
          invariant members == old(members) && cache == old(cache)
          invariant forall p :: Has(permissions, p)
                      <==> Has(community.defaults, p) || exists j :: 0 <= j < i && Has(held[j].bits, p)
        {
          ghost var before := permissions;
          permissions := AddRole(permissions, held[i]);
          forall p
            ensures Has(permissions, p) <==> Has(before, p) || Has(held[i].bits, p)
          {
            OrHas(before, held[i].bits, p);
          }
        }
        HeldById(roles, assignments, community.id, uId);
      }
      members := SetBits(members, uId, community.id, permissions);
      cache := cache - {PermissionRedisKey(uId, community.id)};
    }

    // -------------------------------------------------------------- handlers

    method NewCommunity(owner: nat, channel: nat) returns (id: nat)
      modifies this
      ensures id == old(nextCommunity)
      ensures State() == Handled(old(State()), Op.NewCommunity(owner, channel))
    {
      id := nextCommunity;
      communities := communities[id := Community(id, owner, DEFAULT_BITS)];
      members := members + [Member(owner, id, channel, OWNER_BITS)];
      nextCommunity := nextCommunity + 1;
    }

    method JoinCommunity(user: nat, c: nat, check: BanCheck) returns (ok: bool)
      modifies this
      ensures ok <==> c in old(communities) && check == NotBanned
      ensures State() == Handled(old(State()), Join(user, c, check))
    {
      if c !in communities || check != NotBanned { return false; }
      members := members + [Member(user, c, 0, communities[c].defaults)];
      ok := true;
    }

    /** Sign-in and sign-up with an invite code: insert a bare row, then recompute this one user. */
    method JoinWithCode(user: nat, c: nat, check: BanCheck) returns (ok: bool)
      requires Keyed()
      modifies this
      ensures ok <==> c in old(communities) && check == NotBanned
      ensures State() == Handled(old(State()), JoinByCode(user, c, check))
    {
      if c !in communities || check != NotBanned { return false; }
      members := members + [Member(user, c, 0, NO_BITS)];
      var permissions := RecalculateForUser(user, communities[c]);
      DerivedByIdIs(communities[c], roles, assignments, user, permissions);
      assert UserSet([user]) == {user};
      assert Keys({user}, c) == {PermissionRedisKey(user, c)};
      ok := true;
    }

    /** One conditional single-column update. */
    method GrantColumn(column: Permission, bits: Bits, row: Member, ghost start: seq<Member>, ghost granted: Bits)
      returns (ghost total: Bits)
      requires members == GrantBits(start, row.userId, row.communityId, granted)
      modifies this`members
      ensures members == GrantBits(start, row.userId, row.communityId, total)
      ensures forall p :: Has(total, p) <==> Has(granted, p) || (p == column && Has(Minus(bits, row.bits), p))
    {
      total := granted;
      MinusHas(bits, row.bits, column);
      if Has(bits, column) && !Has(row.bits, column) {
        members := GrantBits(members, row.userId, row.communityId, Only(column));
        total := Or(granted, Only(column));
        forall p ensures Has(total, p) <==> Has(granted, p) || (p == column && Has(Minus(bits, row.bits), p)) {
          OrHas(granted, Only(column), p);
          OnlyHas(column, p);
        }
        GrantTwice(start, row.userId, row.communityId, granted, Only(column));
      }
    }

    /** The eight conditional updates for one picked member, each compared with the row as it was selected. */
    method GrantMissing(row: Member, bits: Bits)
      modifies this`members
      ensures members == GrantBits(old(members), row.userId, row.communityId, Minus(bits, row.bits))
    {
      ghost var start := members;
      assert members == GrantBits(start, row.userId, row.communityId, NO_BITS);
      ghost var total := GrantColumn(ViewChannels, bits, row, start, NO_BITS);
      total := GrantColumn(ManageChannels, bits, row, start, total);
      total := GrantColumn(ManageCommunity, bits, row, start, total);
      total := GrantColumn(CreateInvite, bits, row, start, total);
      total := GrantColumn(KickMembers, bits, row, start, total);
      total := GrantColumn(BanMembers, bits, row, start, total);
      total := GrantColumn(SendMessages, bits, row, start, total);
      total := GrantColumn(AttachMedia, bits, row, start, total);
      BitsEqual(total, Minus(bits, row.bits));
    }

    /** One picked member: drop the cache entry, insert the assignment, grant the missing bits. */
    method AssignOne(id: nat, c: nat, bits: Bits, row: Member)
      requires row.communityId == c
      modifies this`assignments, this`members, this`cache
      ensures assignments == old(assignments) + [Assignment(id, row.userId, c)]
      ensures members == GrantBits(old(members), row.userId, c, Minus(bits, row.bits))
      ensures cache == old(cache) - {PermissionRedisKey(row.userId, c)}
    {
      cache := cache - {PermissionRedisKey(row.userId, c)};
      assignments := assignments + [Assignment(id, row.userId, c)];
      GrantMissing(row, bits);
    }

    method AssignEach(id: nat, c: nat, bits: Bits, rows: seq<Member>)
      requires forall i :: 0 <= i < |rows| ==> rows[i].communityId == c
      modifies this`assignments, this`members, this`cache
      ensures assignments == old(assignments) + NewAssignments(id, c, rows)
      ensures members == GrantEach(old(members), rows, bits)
      ensures cache == old(cache) - Keys(UsersOf(rows), c)
    {
      for i := 0 to |rows|
        invariant assignments == old(assignments) + NewAssignments(id, c, rows[..i])
        invariant cache == old(cache) - Keys(UsersOf(rows[..i]), c)
        invariant members == GrantEach(old(members), rows[..i], bits)
      {
        OneMoreAssigned(id, c, rows, i);
        OneMoreGrant(old(members), rows, i, bits);
        AssignOne(id, c, bits, rows[i]);
      }
      assert rows[..|rows|] == rows;
    }

    method AssignPicked(id: nat, c: nat, bits: Bits, picks: seq<nat>)
      modifies this`assignments, this`members, this`cache
      ensures assignments == old(assignments) + NewAssignments(id, c, MembersAmong(old(members), c, picks))
      ensures members == GrantedAmong(old(members), c, picks, bits)
      ensures cache == old(cache) - Keys(UsersOf(MembersAmong(old(members), c, picks)), c)
    {
      var rows := MembersAmong(members, c, picks);
      assert forall i :: 0 <= i < |rows| ==> rows[i] in rows;
      GrantEachIsGranted(members, c, picks, bits);
      AssignEach(id, c, bits, rows);
    }

    method CreateRole(c: nat, name: string, show: bool, bits: Bits, picks: seq<nat>) returns (ok: bool)
      modifies this
      ensures ok <==> c in old(communities)
      ensures State() == Handled(old(State()), Op.CreateRole(c, name, show, bits, picks))
    {
      if c !in communities { return false; }
      var id := nextRole;
      roles := roles + [Role(id, c, name, show, |RolesOf(roles, c)|, bits)];
      nextRole := nextRole + 1;
      AssignPicked(id, c, bits, picks);
      ok := true;
    }

    /** First transaction of a role edit: the role row alone. */
    method UpdateRole(role: nat, name: string, show: bool, bits: Bits)
      modifies this`roles
      ensures roles == SetRole(old(roles), role, name, show, bits)
    {
      roles := SetRole(roles, role, name, show, bits);
    }

    method InsertAssignments(role: nat, c: nat, rows: seq<Member>)
      modifies this`assignments
      ensures assignments == old(assignments) + NewAssignments(role, c, rows)
    {
      for i := 0 to |rows|
        invariant assignments == old(assignments) + NewAssignments(role, c, rows[..i])
      {
        assignments := assignments + [Assignment(role, rows[i].userId, c)];
        assert NewAssignments(role, c, rows[..i + 1])
          == NewAssignments(role, c, rows[..i]) + [Assignment(role, rows[i].userId, c)];
      }
      assert rows[..|rows|] == rows;
    }

    /** Second transaction: clear the role's assignments, recompute the earlier holders, assign the picked members,
        and recompute the earlier holders again. */
    method ReassignRole(c: nat, role: nat, picks: seq<nat>)
      requires c in communities && communities[c].id == c
      modifies this`assignments, this`members, this`cache
      ensures assignments == EditedAssignments(old(members), old(assignments), c, role, picks)
      ensures members == Recomputed(old(members), communities[c], roles, assignments,
                                    UserIds(AssignmentsOf(old(assignments), c)))
      ensures cache == old(cache) - Keys(UserSet(UserIds(AssignmentsOf(old(assignments), c))), c)
    {
      ghost var start := members;
      var community := communities[c];
      var before := UserIds(AssignmentsOf(assignments, c));
      assignments := WithoutAssignments(assignments, role);
      RecalculateForUsers(before, community);
      AmongRecomputed(start, members, c, picks);
      if |picks| > 0 {
        var rows := MembersAmong(members, c, picks);
        InsertAssignments(role, c, rows);
        RecalculateForUsers(before, community);
        assert members == Recomputed(start, community, roles, assignments, before);
        assert cache == old(cache) - Keys(UserSet(before), c);
      } else {
        NonePicked(start, c, picks);
      }
    }

    /** The role row is committed first; whether the second transaction goes through is up to the database. */
    method EditRole(c: nat, role: nat, name: string, show: bool, bits: Bits, picks: seq<nat>, secondCommits: bool)
      returns (ok: bool)
      requires Keyed()
      modifies this
      ensures ok <==> c in old(communities) && HasRole(old(roles), role, c)
      ensures secondCommits ==> State() == Handled(old(State()), Op.EditRole(c, role, name, show, bits, picks))
      ensures !secondCommits ==> State() == Handled(old(State()), Op.EditRoleHalf(c, role, name, show, bits))
    {
      ghost var op, db := Op.EditRole(c, role, name, show, bits, picks), Tables();
      if c !in communities || !HasRole(roles, role, c) { return false; }
      UpdateRole(role, name, show, bits);
      ok := true;
      if !secondCommits { return; }
      ReassignRole(c, role, picks);
      assert Tables() == Step(db, op);
    }

    method DeleteRole(c: nat, role: nat) returns (ok: bool)
      requires Keyed()
      modifies this
      ensures ok <==> c in old(communities) && HasRole(old(roles), role, c)
      ensures State() == Handled(old(State()), Op.DeleteRole(c, role))
    {
      ghost var op, db := Op.DeleteRole(c, role), Tables();
      if c !in communities || !HasRole(roles, role, c) { return false; }
      roles := WithoutRole(roles, role);
      var holders := UserIds(AssignmentsOf(assignments, c));
      if |holders| > 0 {
        assignments := WithoutAssignmentsAmong(assignments, role, holders);
        RecalculateForUsers(holders, communities[c]);
      } else {
        WhereAll(assignments, role, holders);
        assert UserSet(holders) == {} && Keys({}, c) == {};
        assert members == Recomputed(members, communities[c], roles, assignments, holders);
      }
      assert Tables() == Step(db, op);
      ok := true;
    }

    /** The recompute is given the community as the pool still sees it, with the defaults before this transaction. */
    method EditDefaults(c: nat, bits: Bits) returns (ok: bool)
      requires Keyed()
      modifies this
      ensures ok <==> c in old(communities)
      ensures State() == Handled(old(State()), Op.EditDefaults(c, bits))
    {
      if c !in communities { return false; }
      var committed := communities;
      communities := communities[c := communities[c].(defaults := bits)];
      var users := MemberIds(members, c);
      RecalculateForUsers(users, committed[c]);
      ok := true;
    }

    method EditPriorities(c: nat, order: seq<nat>) returns (ok: bool)
      modifies this
      ensures ok <==> c in old(communities) && order != []
      ensures State() == Handled(old(State()), Op.EditPriorities(c, order))
    {
      if c !in communities || |order| == 0 { return false; }
      for i := 0 to |order|
        invariant roles == Reordered(old(roles), c, order[..i])
        invariant State() == old(State()).(db := old(Tables()).(roles := roles))
      {
        assert order[..i + 1][..i] == order[..i];
        roles := SetPriority(roles, order[i], c, i);
      }
      assert order[..|order|] == order;
      ok := true;
    }

    method SelectChannel(user: nat, c: nat, channel: nat)
      modifies this
      ensures State() == Handled(old(State()), Op.SelectChannel(user, c, channel))
    {
      members := SetChannel(members, user, c, channel);
    }

    /** The owner's request deletes the memberships, the assignments, the roles and the community; no cache entry. */
    method DeleteCommunity(user: nat, c: nat) returns (ok: bool)
      modifies this
      ensures ok <==> c in old(communities) && old(communities)[c].ownerId == user
      ensures State() == Handled(old(State()), Op.DeleteCommunity(user, c))
    {
      DeletionDropsNothing(State(), Op.DeleteCommunity(user, c));
      if c !in communities || user != communities[c].ownerId { return false; }
      members := MembersOutside(members, c);
      assignments := AssignmentsOutside(assignments, c);
      roles := RolesOutside(roles, c);
      communities := communities - {c};
      ok := true;
    }
  }

  lemma DeletionDropsNothing(w: World, op: Op)
    requires op.DeleteCommunity?
    ensures Handled(w, op) == w.(db := Step(w.db, op))
  {
    assert w.cache - Keys({}, op.community) == w.cache;
  }

  lemma HeldById(roles: seq<Role>, assignments: seq<Assignment>, c: nat, uId: nat)
    ensures var held := RolesById(roles, RoleIds(AssignmentsOfUser(assignments, c, uId)));
            forall r :: r in held <==> r in roles && Assignment(r.id, uId, c) in assignments
  {
  }

  /** Recomputing changes no keys, so the same users are picked before and after. */
  lemma {:induction false} AmongRecomputed(before: seq<Member>, now: seq<Member>, c: nat, picks: seq<nat>)
    requires |now| == |before|
    requires forall i :: 0 <= i < |before| ==> now[i] == before[i].(bits := now[i].bits)
    ensures forall role :: NewAssignments(role, c, MembersAmong(now, c, picks))
              == NewAssignments(role, c, MembersAmong(before, c, picks))
  {
    if before != [] {
      AmongRecomputed(before[1..], now[1..], c, picks);
      AmongStep(before, c, picks);
      AmongStep(now, c, picks);
      forall role
        ensures NewAssignments(role, c, MembersAmong(now, c, picks))
             == NewAssignments(role, c, MembersAmong(before, c, picks))
      {
        assert NewAssignments(role, c, MembersAmong(now[1..], c, picks))
          == NewAssignments(role, c, MembersAmong(before[1..], c, picks));
        NewAssignmentsStep(role, c, before[0], MembersAmong(before[1..], c, picks));
        NewAssignmentsStep(role, c, now[0], MembersAmong(now[1..], c, picks));
      }
    }
  }

  lemma OneMoreAssigned(id: nat, c: nat, rows: seq<Member>, i: nat)
    requires i < |rows|
    ensures NewAssignments(id, c, rows[..i + 1])
         == NewAssignments(id, c, rows[..i]) + [Assignment(id, rows[i].userId, c)]
    ensures Keys(UsersOf(rows[..i + 1]), c) == Keys(UsersOf(rows[..i]), c) + {PermissionRedisKey(rows[i].userId, c)}
  {
  }

  lemma OneMoreGrant(before: seq<Member>, rows: seq<Member>, i: nat, bits: Bits)
    requires i < |rows|
    ensures GrantEach(before, rows[..i + 1], bits)
         == GrantBits(GrantEach(before, rows[..i], bits), rows[i].userId, rows[i].communityId,
                      Minus(bits, rows[i].bits))
  {
    assert rows[..i + 1][..i] == rows[..i];
  }

  lemma GrantTwice(members: seq<Member>, user: nat, c: nat, a: Bits, b: Bits)
    ensures GrantBits(GrantBits(members, user, c, a), user, c, b) == GrantBits(members, user, c, Or(a, b))
  {
  }

  lemma AmongStep(members: seq<Member>, c: nat, picks: seq<nat>)
    requires members != []
    ensures MembersAmong(members, c, picks)
         == (if members[0].communityId == c && members[0].userId in picks then [members[0]] else [])
            + MembersAmong(members[1..], c, picks)
  {
  }

  lemma NewAssignmentsStep(role: nat, c: nat, m: Member, rows: seq<Member>)
    ensures NewAssignments(role, c, [m] + rows) == [Assignment(role, m.userId, c)] + NewAssignments(role, c, rows)
    ensures [] + rows == rows
  {
  }

  lemma {:induction false} WhereAll(assignments: seq<Assignment>, role: nat, holders: seq<nat>)
    requires holders == []
    ensures WithoutAssignmentsAmong(assignments, role, holders) == assignments
  {
    if assignments != [] { WhereAll(assignments[1..], role, holders); }
  }

  lemma {:induction false} NonePicked(members: seq<Member>, c: nat, picks: seq<nat>)
    requires picks == []
    ensures MembersAmong(members, c, picks) == []
    ensures forall role :: NewAssignments(role, c, MembersAmong(members, c, picks)) == []
  {
    if members != [] { NonePicked(members[1..], c, picks); }
  }
}
