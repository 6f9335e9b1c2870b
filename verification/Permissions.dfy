/** The permission handlers as state transformers, and when they keep every stored membership row equal to the
    permissions it is supposed to materialise. */
module Permissions {
  import opened ByteText
  import opened Tables

  datatype Db = Db(
    communities: map<nat, Community>,
    roles: seq<Role>,
    assignments: seq<Assignment>,
    members: seq<Member>,
    nextCommunity: nat,
    nextRole: nat)

  const EMPTY_DB := Db(map[], [], [], [], 1, 1)

  /** How the count of bans came back: the statement failed, or it answered. */
  datatype BanCheck = CheckFailed | Banned | NotBanned

  /** `EditRoleHalf` is a role edit whose first transaction commits and whose second fails. */
  datatype Op =
    | NewCommunity(owner: nat, channel: nat)
    | Join(user: nat, community: nat, check: BanCheck)
    | JoinByCode(user: nat, community: nat, check: BanCheck)
    | CreateRole(community: nat, name: string, show: bool, bits: Bits, picks: seq<nat>)
    | EditRole(community: nat, role: nat, name: string, show: bool, bits: Bits, picks: seq<nat>)
    | EditRoleHalf(community: nat, role: nat, name: string, show: bool, bits: Bits)
    | DeleteRole(community: nat, role: nat)
    | EditDefaults(community: nat, bits: Bits)
    | EditPriorities(community: nat, order: seq<nat>)
    | SelectChannel(user: nat, community: nat, channel: nat)
    | DeleteCommunity(user: nat, community: nat)

  // ---------------------------------------------------------------- what a row should hold

  ghost predicate RoleGrants(roles: seq<Role>, assignments: seq<Assignment>, community: nat, user: nat, p: Permission) {
    exists r :: r in roles && r.communityId == community && Assignment(r.id, user, community) in assignments
      && Has(r.bits, p)
  }

  ghost predicate Entitled(c: Community, roles: seq<Role>, assignments: seq<Assignment>, user: nat, p: Permission) {
    if user == c.ownerId then Has(OWNER_BITS, p)
    else Has(c.defaults, p) || RoleGrants(roles, assignments, c.id, user, p)
  }

  /** The owner holds everything; anyone else the defaults and what any held role grants. */
  ghost function Derived(c: Community, roles: seq<Role>, assignments: seq<Assignment>, user: nat): Bits {
    Bits(Entitled(c, roles, assignments, user, ViewChannels), Entitled(c, roles, assignments, user, ManageChannels),
         Entitled(c, roles, assignments, user, ManageCommunity), Entitled(c, roles, assignments, user, CreateInvite),
         Entitled(c, roles, assignments, user, KickMembers), Entitled(c, roles, assignments, user, BanMembers),
         Entitled(c, roles, assignments, user, SendMessages), Entitled(c, roles, assignments, user, AttachMedia))
  }

  lemma DerivedHas(c: Community, roles: seq<Role>, assignments: seq<Assignment>, user: nat, p: Permission)
    ensures Has(Derived(c, roles, assignments, user), p) <==> Entitled(c, roles, assignments, user, p)
  {
  }

  lemma DerivedIs(c: Community, roles: seq<Role>, assignments: seq<Assignment>, user: nat, b: Bits)
    requires forall p :: Has(b, p) <==> Entitled(c, roles, assignments, user, p)
    ensures b == Derived(c, roles, assignments, user)
  {
  }

  /** The single-user recompute looks its roles up by id alone, whatever community they belong to. */
  ghost predicate EntitledById(c: Community, roles: seq<Role>, assignments: seq<Assignment>, user: nat, p: Permission) {
    if user == c.ownerId then Has(OWNER_BITS, p)
    else Has(c.defaults, p) || exists r :: r in roles && Assignment(r.id, user, c.id) in assignments && Has(r.bits, p)
  }

  ghost function DerivedById(c: Community, roles: seq<Role>, assignments: seq<Assignment>, user: nat): Bits {
    Bits(EntitledById(c, roles, assignments, user, ViewChannels),
         EntitledById(c, roles, assignments, user, ManageChannels),
         EntitledById(c, roles, assignments, user, ManageCommunity),
         EntitledById(c, roles, assignments, user, CreateInvite),
         EntitledById(c, roles, assignments, user, KickMembers),
         EntitledById(c, roles, assignments, user, BanMembers),
         EntitledById(c, roles, assignments, user, SendMessages),
         EntitledById(c, roles, assignments, user, AttachMedia))
  }

  lemma DerivedByIdIs(c: Community, roles: seq<Role>, assignments: seq<Assignment>, user: nat, b: Bits)
    requires forall p :: Has(b, p) <==> EntitledById(c, roles, assignments, user, p)
    ensures b == DerivedById(c, roles, assignments, user)
  {
  }

  ghost function RowRecomputed(m: Member, c: Community, roles: seq<Role>, assignments: seq<Assignment>,
                               users: seq<nat>): Member {
    if m.communityId == c.id && m.userId in users then m.(bits := Derived(c, roles, assignments, m.userId)) else m
  }

  ghost function Recomputed(members: seq<Member>, c: Community, roles: seq<Role>, assignments: seq<Assignment>,
                            users: seq<nat>)
    : (r: seq<Member>)
    ensures |r| == |members|
    ensures forall i :: 0 <= i < |members| ==> r[i] == RowRecomputed(members[i], c, roles, assignments, users)
  {
    seq(|members|, i requires 0 <= i < |members| => RowRecomputed(members[i], c, roles, assignments, users))
  }

  // ---------------------------------------------------------------- the handlers on tables

  function RowGrantedAmong(m: Member, community: nat, picks: seq<nat>, bits: Bits): Member {
    if m.communityId == community && m.userId in picks then m.(bits := Or(m.bits, bits)) else m
  }

  function GrantedAmong(members: seq<Member>, community: nat, picks: seq<nat>, bits: Bits): (r: seq<Member>)
    ensures |r| == |members|
    ensures forall i :: 0 <= i < |members| ==> r[i] == RowGrantedAmong(members[i], community, picks, bits)
  {
    seq(|members|, i requires 0 <= i < |members| => RowGrantedAmong(members[i], community, picks, bits))
  }

  predicate HasRole(roles: seq<Role>, id: nat, community: nat) {
    exists r :: r in roles && r.id == id && r.communityId == community
  }

  function Reordered(roles: seq<Role>, community: nat, order: seq<nat>): (r: seq<Role>)
    ensures |r| == |roles|
    ensures forall i :: 0 <= i < |roles| ==> r[i] == roles[i].(priority := r[i].priority)
  {
    if order == [] then roles
    else SetPriority(Reordered(roles, community, order[..|order| - 1]), order[|order| - 1], community, |order| - 1)
  }

  ghost function Step(db: Db, op: Op): Db {
    match op
    case NewCommunity(owner, channel) =>
      db.(communities := db.communities[db.nextCommunity := Community(db.nextCommunity, owner, DEFAULT_BITS)],
          members := db.members + [Member(owner, db.nextCommunity, channel, OWNER_BITS)],
          nextCommunity := db.nextCommunity + 1)
    case Join(user, c, check) =>
      if c !in db.communities || check != NotBanned then db
      else db.(members := db.members + [Member(user, c, 0, db.communities[c].defaults)])
    case JoinByCode(user, c, check) =>
      if c !in db.communities || check != NotBanned then db
      else db.(members := SetBits(db.members + [Member(user, c, 0, NO_BITS)], user, c,
                                  DerivedById(db.communities[c], db.roles, db.assignments, user)))
    case CreateRole(c, name, show, bits, picks) =>
      if c !in db.communities then db
      else
        var role := Role(db.nextRole, c, name, show, |RolesOf(db.roles, c)|, bits);
        db.(roles := db.roles + [role],
            assignments := db.assignments + NewAssignments(role.id, c, MembersAmong(db.members, c, picks)),
            members := GrantedAmong(db.members, c, picks, bits),
            nextRole := db.nextRole + 1)
    case EditRole(c, role, name, show, bits, picks) =>
      if c !in db.communities || !HasRole(db.roles, role, c) then db
      else
        var roles := SetRole(db.roles, role, name, show, bits);
        var before := UserIds(AssignmentsOf(db.assignments, c));
        var assignments := EditedAssignments(db.members, db.assignments, c, role, picks);
        db.(roles := roles,
            assignments := assignments,
            members := Recomputed(db.members, db.communities[c], roles, assignments, before))
    case EditRoleHalf(c, role, name, show, bits) =>
      if c !in db.communities || !HasRole(db.roles, role, c) then db
      else db.(roles := SetRole(db.roles, role, name, show, bits))
    case DeleteRole(c, role) =>
      if c !in db.communities || !HasRole(db.roles, role, c) then db
      else
        var roles := WithoutRole(db.roles, role);
        var holders := UserIds(AssignmentsOf(db.assignments, c));
        var assignments := WithoutAssignmentsAmong(db.assignments, role, holders);
        db.(roles := roles,
            assignments := assignments,
            members := Recomputed(db.members, db.communities[c], roles, assignments, holders))
    case EditDefaults(c, bits) =>
      // The community is read again outside the open transaction: the recompute still sees the old defaults.
      if c !in db.communities then db
      else
        db.(communities := db.communities[c := db.communities[c].(defaults := bits)],
            members := Recomputed(db.members, db.communities[c], db.roles, db.assignments, MemberIds(db.members, c)))
    case EditPriorities(c, order) =>
      if c !in db.communities then db else db.(roles := Reordered(db.roles, c, order))
    case SelectChannel(user, c, channel) =>
      db.(members := SetChannel(db.members, user, c, channel))
    case DeleteCommunity(user, c) =>
      if Erases(db, user, c) then Erased(db, c) else db
  }

  /** Only the owner may delete a community. */
  predicate Erases(db: Db, user: nat, c: nat) {
    c in db.communities && db.communities[c].ownerId == user
  }

  function Erased(db: Db, c: nat): Db {
    db.(communities := db.communities - {c},
        roles := RolesOutside(db.roles, c),
        assignments := AssignmentsOutside(db.assignments, c),
        members := MembersOutside(db.members, c))
  }

  predicate Picked(members: seq<Member>, a: Assignment, c: nat, picks: seq<nat>) {
    a.communityId == c && a.userId in picks && IsMember(members, a.userId, c)
  }

  /** The assignments of an edited role are deleted and inserted again for the picked members. */
  function EditedAssignments(members: seq<Member>, assignments: seq<Assignment>, c: nat, role: nat,
                             picks: seq<nat>): (r: seq<Assignment>)
    ensures forall a :: a in r <==> if a.roleId != role then a in assignments else Picked(members, a, c, picks)
  {
    var rows := MembersAmong(members, c, picks);
    var added := NewAssignments(role, c, rows);
    assert forall i :: 0 <= i < |rows| ==> added[i] == Assignment(role, rows[i].userId, c) && rows[i] in rows;
    forall a: Assignment | a.roleId == role && Picked(members, a, c, picks) ensures a in added {
      var m :| m in members && RowOf(m, a.userId, c);
      assert m in rows;
      var i :| 0 <= i < |rows| && rows[i] == m;
      assert added[i] == a;
    }
    WithoutAssignments(assignments, role) + added
  }

  // ---------------------------------------------------------------- invariants

  predicate IsMember(members: seq<Member>, user: nat, community: nat) {
    exists m :: m in members && RowOf(m, user, community)
  }

  /** Keys are well formed: an assignment joins a role of its community with a member of its community. */
  ghost predicate Consistent(db: Db) {
    && (forall c :: c in db.communities ==>
        db.communities[c].id == c && c < db.nextCommunity && IsMember(db.members, db.communities[c].ownerId, c))
    && (forall r, s :: r in db.roles && s in db.roles && r.id == s.id ==> r == s)
    && (forall r :: r in db.roles ==> r.id < db.nextRole && r.communityId in db.communities)
    && (forall m :: m in db.members ==> m.communityId in db.communities)
    && (forall a :: a in db.assignments ==>
        HasRole(db.roles, a.roleId, a.communityId) && IsMember(db.members, a.userId, a.communityId))
  }

  ghost predicate RowCorrect(db: Db, m: Member) {
    m.communityId in db.communities
    && m.bits == Derived(db.communities[m.communityId], db.roles, db.assignments, m.userId)
  }

  /** Every stored row equals what it materialises. */
  ghost predicate Correct(db: Db) {
    forall m :: m in db.members ==> RowCorrect(db, m)
  }

  /** A user holds some role of the community. */
  predicate HoldsSome(db: Db, user: nat, c: nat) {
    exists a :: a in db.assignments && a.userId == user && a.communityId == c
  }

  // ---------------------------------------------------------------- one row at a time

  /** The operation passes its own checks and does something. */
  predicate Applies(db: Db, op: Op) {
    match op
    case NewCommunity(_, _) => true
    case Join(_, c, check) => c in db.communities && check == NotBanned
    case JoinByCode(_, c, check) => c in db.communities && check == NotBanned
    case EditRole(c, role, _, _, _, _) => c in db.communities && HasRole(db.roles, role, c)
    case EditRoleHalf(c, role, _, _, _) => c in db.communities && HasRole(db.roles, role, c)
    case DeleteRole(c, role) => c in db.communities && HasRole(db.roles, role, c)
    case SelectChannel(_, _, _) => true
    case DeleteCommunity(user, c) => Erases(db, user, c)
    case _ => op.community in db.communities
  }

  /** A stored row is still there afterwards. */
  predicate Survives(db: Db, op: Op, m: Member) {
    op.DeleteCommunity? && Applies(db, op) ==> m.communityId != op.community
  }

  /** The users whose rows a role edit or delete recomputes: everyone holding some role of the community. */
  function Holders(db: Db, c: nat): seq<nat> {
    UserIds(AssignmentsOf(db.assignments, c))
  }

  /** What a surviving row becomes. */
  ghost function RowAfter(db: Db, op: Op, m: Member): Member {
    if !Applies(db, op) then m
    else
      match op
      case JoinByCode(user, c, _) => BitsSet(m, user, c, DerivedById(db.communities[c], db.roles, db.assignments, user))
      case CreateRole(c, _, _, bits, picks) => RowGrantedAmong(m, c, picks, bits)
      case EditRole(c, _, _, _, _, _) =>
        RowRecomputed(m, db.communities[c], Step(db, op).roles, Step(db, op).assignments, Holders(db, c))
      case DeleteRole(c, _) =>
        RowRecomputed(m, db.communities[c], Step(db, op).roles, Step(db, op).assignments, Holders(db, c))
      case EditDefaults(c, _) => RowRecomputed(m, db.communities[c], db.roles, db.assignments, MemberIds(db.members, c))
      case SelectChannel(user, c, channel) => ChannelSet(m, user, c, channel)
      case _ => m
  }

  /** The inserted row, as it is stored when the operation is done. */
  ghost function NewRow(db: Db, op: Op): Option<Member> {
    if !Applies(db, op) then None
    else
      match op
      case NewCommunity(owner, channel) => Some(Member(owner, db.nextCommunity, channel, OWNER_BITS))
      case Join(user, c, _) => Some(Member(user, c, 0, db.communities[c].defaults))
      case JoinByCode(user, c, _) =>
        Some(Member(user, c, 0, DerivedById(db.communities[c], db.roles, db.assignments, user)))
      case _ => None
  }

  /** A row whose bits are written whatever they were. */
  predicate Rewritten(db: Db, op: Op, m: Member) {
    Applies(db, op) &&
    match op
    case JoinByCode(user, c, _) => RowOf(m, user, c)
    case EditRole(c, _, _, _, _, _) => m.communityId == c && HoldsSome(db, m.userId, c)
    case DeleteRole(c, _) => m.communityId == c && HoldsSome(db, m.userId, c)
    case EditDefaults(c, _) => m.communityId == c
    case _ => false
  }

  /** Another role than this one grants it. */
  ghost predicate OtherGrants(roles: seq<Role>, assignments: seq<Assignment>, c: nat, role: nat, user: nat,
                              p: Permission) {
    exists r :: r in roles && r.communityId == c && r.id != role && Assignment(r.id, user, c) in assignments
      && Has(r.bits, p)
  }

  /** A permission the user has without one of the roles. */
  ghost predicate GrantedOtherwise(db: Db, c: Community, role: nat, user: nat, p: Permission) {
    Has(c.defaults, p) || OtherGrants(db.roles, db.assignments, c.id, role, user, p)
  }

  /** What can be checked before the call: exactly when a right row is right afterwards. */
  ghost predicate RowSafe(db: Db, op: Op, m: Member) {
    Applies(db, op) && !op.NewCommunity? && m.communityId == op.community && m.communityId in db.communities
    && m.userId != db.communities[m.communityId].ownerId ==>
      var k := db.communities[m.communityId];
      match op
      case EditRole(c, _, _, _, bits, picks) => m.userId in picks && !HoldsSome(db, m.userId, c)
        ==> Within(bits, k.defaults)
      case EditRoleHalf(c, role, _, _, bits) =>
        Assignment(role, m.userId, c) in db.assignments ==>
          forall r, p :: r in db.roles && r.id == role && Has(bits, p) != Has(r.bits, p)
            ==> GrantedOtherwise(db, k, role, m.userId, p)
      case EditDefaults(c, bits) =>
        forall p :: Has(bits, p) != Has(k.defaults, p) ==> RoleGrants(db.roles, db.assignments, c, m.userId, p)
      case _ => true
  }

  /** Exactly when the inserted row is right. */
  ghost predicate NewRowSafe(db: Db, op: Op) {
    op.Join? && Applies(db, op) ==>
      var k := db.communities[op.community];
      if op.user == k.ownerId then k.defaults == OWNER_BITS
      else
        forall r ::
          r in db.roles && r.communityId == op.community && Assignment(r.id, op.user, op.community) in db.assignments
          ==> Within(r.bits, k.defaults)
  }

  /** Exactly when an operation keeps every row right. */
  ghost predicate Safe(db: Db, op: Op) {
    NewRowSafe(db, op) && forall m :: m in db.members ==> RowSafe(db, op, m)
  }

  // ---------------------------------------------------------------- frames

  lemma SameKeysSameMembers(members: seq<Member>, members': seq<Member>)
    requires |members| <= |members'|
    requires forall i :: 0 <= i < |members| ==> RowOf(members'[i], members[i].userId, members[i].communityId)
    ensures forall u, c :: IsMember(members, u, c) ==> IsMember(members', u, c)
  {
  }

  /** Only this community's roles and assignments matter. */
  lemma DerivedFrame(c: Community, roles: seq<Role>, assignments: seq<Assignment>,
                     roles': seq<Role>, assignments': seq<Assignment>, user: nat)
    requires forall r :: r in roles && r.communityId == c.id && Assignment(r.id, user, c.id) in assignments ==>
      exists s :: s in roles' && s.communityId == c.id && Assignment(s.id, user, c.id) in assignments'
        && s.bits == r.bits
    requires forall r :: r in roles' && r.communityId == c.id && Assignment(r.id, user, c.id) in assignments' ==>
      exists s :: s in roles && s.communityId == c.id && Assignment(s.id, user, c.id) in assignments && s.bits == r.bits
    ensures Derived(c, roles, assignments, user) == Derived(c, roles', assignments', user)
  {
  }

  /** Nobody who is not a member, and nobody without an assignment, is granted anything by a role. */
  lemma NoRoleNoGrant(c: Community, roles: seq<Role>, assignments: seq<Assignment>, user: nat)
    requires forall a :: a in assignments ==> !(a.userId == user && a.communityId == c.id)
    ensures Derived(c, roles, assignments, user) == if user == c.ownerId then OWNER_BITS else c.defaults
  {
  }
}
