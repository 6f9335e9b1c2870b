/** The rows the permission handlers work on, and the SQL statements they issue, as functions on tables.
    A table is a sequence of rows in an arbitrary but fixed order. */
module Tables {

  /** The enumeration's eight codes; `Unlisted` is every other integer. */
  datatype Permission =
    | ViewChannels
    | ManageChannels
    | ManageCommunity
    | CreateInvite
    | KickMembers
    | BanMembers
    | SendMessages
    | AttachMedia
    | Unlisted

  datatype Bits = Bits(
    viewChannels: bool,
    manageChannels: bool,
    manageCommunity: bool,
    createInvite: bool,
    kickMembers: bool,
    banMembers: bool,
    sendMessages: bool,
    attachMedia: bool)

  const OWNER_BITS := Bits(true, true, true, true, true, true, true, true)
  const NO_BITS := Bits(false, false, false, false, false, false, false, false)
  /** The column defaults of a new community. */
  const DEFAULT_BITS := Bits(true, false, false, true, false, false, true, true)

  datatype Community = Community(id: nat, ownerId: nat, defaults: Bits)
  datatype Role = Role(id: nat, communityId: nat, name: string, showOnlineDifferently: bool, priority: nat, bits: Bits)
  datatype Assignment = Assignment(roleId: nat, userId: nat, communityId: nat)
  datatype Member = Member(userId: nat, communityId: nat, selectedChannelId: nat, bits: Bits)

  /** The switch over one row's columns; a code outside the enumeration is refused. */
  predicate Has(b: Bits, permission: Permission) {
    match permission
    case ViewChannels => b.viewChannels
    case ManageChannels => b.manageChannels
    case ManageCommunity => b.manageCommunity
    case CreateInvite => b.createInvite
    case KickMembers => b.kickMembers
    case BanMembers => b.banMembers
    case SendMessages => b.sendMessages
    case AttachMedia => b.attachMedia
    case Unlisted => false
  }

  function Or(a: Bits, b: Bits): Bits {
    Bits(a.viewChannels || b.viewChannels, a.manageChannels || b.manageChannels,
         a.manageCommunity || b.manageCommunity, a.createInvite || b.createInvite,
         a.kickMembers || b.kickMembers, a.banMembers || b.banMembers,
         a.sendMessages || b.sendMessages, a.attachMedia || b.attachMedia)
  }

  lemma OrHas(a: Bits, b: Bits, p: Permission)
    ensures Has(Or(a, b), p) <==> Has(a, p) || Has(b, p)
  {
  }

  function Minus(a: Bits, b: Bits): Bits {
    Bits(a.viewChannels && !b.viewChannels, a.manageChannels && !b.manageChannels,
         a.manageCommunity && !b.manageCommunity, a.createInvite && !b.createInvite,
         a.kickMembers && !b.kickMembers, a.banMembers && !b.banMembers,
         a.sendMessages && !b.sendMessages, a.attachMedia && !b.attachMedia)
  }

  lemma MinusHas(a: Bits, b: Bits, p: Permission)
    ensures Has(Minus(a, b), p) <==> Has(a, p) && !Has(b, p)
  {
  }

  /** The bits with one column set. */
  function Only(column: Permission): Bits {
    Bits(column == ViewChannels, column == ManageChannels, column == ManageCommunity, column == CreateInvite,
         column == KickMembers, column == BanMembers, column == SendMessages, column == AttachMedia)
  }

  lemma OnlyHas(column: Permission, p: Permission)
    ensures Has(Only(column), p) <==> p == column && p != Unlisted
  {
  }

  /** Every permission in `a` is in `b`. */
  ghost predicate Within(a: Bits, b: Bits) {
    forall p :: Has(a, p) ==> Has(b, p)
  }

  lemma BitsEqual(a: Bits, b: Bits)
    requires forall p :: Has(a, p) == Has(b, p)
    ensures a == b
  {
    assert Has(a, ViewChannels) == Has(b, ViewChannels) && Has(a, ManageChannels) == Has(b, ManageChannels);
    assert Has(a, ManageCommunity) == Has(b, ManageCommunity) && Has(a, CreateInvite) == Has(b, CreateInvite);
    assert Has(a, KickMembers) == Has(b, KickMembers) && Has(a, BanMembers) == Has(b, BanMembers);
    assert Has(a, SendMessages) == Has(b, SendMessages) && Has(a, AttachMedia) == Has(b, AttachMedia);
  }

  function Where<T(!new)>(rows: seq<T>, keep: T -> bool): (r: seq<T>)
    ensures forall x :: x in r <==> x in rows && keep(x)
    ensures |r| <= |rows|
  {
    if rows == [] then []
    else
      var rest := Where(rows[1..], keep);
      assert forall x :: x in rows <==> x == rows[0] || x in rows[1..];
      if keep(rows[0]) then [rows[0]] + rest else rest
  }

  /** A list with one entry taken out. */
  function RemoveAt<T>(s: seq<T>, i: nat): (rest: seq<T>)
    requires i < |s|
    ensures |rest| == |s| - 1
    ensures forall k :: 0 <= k < |rest| ==> rest[k] == s[if k < i then k else k + 1]
  {
    s[..i] + s[i + 1..]
  }

  ghost predicate DistinctIds(roles: seq<Role>) {
    forall i, j :: 0 <= i < j < |roles| ==> roles[i].id != roles[j].id
  }

  lemma SameElements<T>(a: seq<T>, b: seq<T>)
    requires multiset(a) == multiset(b)
    ensures |a| == |b| && forall x :: x in a <==> x in b
  {
    assert |a| == |multiset(a)| && |b| == |multiset(b)|;
    forall x ensures x in a <==> x in b { assert x in multiset(a) <==> x in multiset(b); }
  }

  lemma WhereHead<T(!new)>(rows: seq<T>, keep: T -> bool)
    requires rows != []
    ensures Where(rows, keep) == (if keep(rows[0]) then [rows[0]] else []) + Where(rows[1..], keep)
  {
  }

  lemma Regrouped<T>(a: seq<T>, b: seq<T>, c: seq<T>)
    ensures a + (b + c) == (a + b) + c
  {
  }

  lemma TailOfJoin<T>(a: seq<T>, b: seq<T>)
    requires a != []
    ensures (a + b)[1..] == a[1..] + b && (a + b)[0] == a[0]
  {
  }

  lemma {:induction false} WhereSplit<T(!new)>(a: seq<T>, b: seq<T>, keep: T -> bool)
    ensures Where(a + b, keep) == Where(a, keep) + Where(b, keep)
  {
    if a == [] {
      assert a + b == b;
    } else {
      var head := if keep(a[0]) then [a[0]] else [];
      WhereSplit(a[1..], b, keep);
      TailOfJoin(a, b);
      WhereHead(a, keep);
      WhereHead(a + b, keep);
      Regrouped(head, Where(a[1..], keep), Where(b, keep));
    }
  }

  function InCommunity(community: nat): Role -> bool {
    (x: Role) => x.communityId == community
  }

  function RolesOf(roles: seq<Role>, community: nat): (r: seq<Role>)
    ensures forall x :: x in r <==> x in roles && x.communityId == community
  {
    Where(roles, InCommunity(community))
  }

  function RolesById(roles: seq<Role>, ids: seq<nat>): (r: seq<Role>)
    ensures forall x :: x in r <==> x in roles && x.id in ids
  {
    Where(roles, (x: Role) => x.id in ids)
  }

  function AssignmentsOf(assignments: seq<Assignment>, community: nat): (r: seq<Assignment>)
    ensures forall x :: x in r <==> x in assignments && x.communityId == community
  {
    Where(assignments, (x: Assignment) => x.communityId == community)
  }

  function AssignmentsOfUser(assignments: seq<Assignment>, community: nat, user: nat): (r: seq<Assignment>)
    ensures forall x :: x in r <==> x in assignments && x.communityId == community && x.userId == user
  {
    Where(assignments, (x: Assignment) => x.communityId == community && x.userId == user)
  }

  function UserIds(assignments: seq<Assignment>): (r: seq<nat>)
    ensures |r| == |assignments|
    ensures forall u :: u in r <==> exists a :: a in assignments && a.userId == u
  {
    var r := seq(|assignments|, i requires 0 <= i < |assignments| => assignments[i].userId);
    assert forall i :: 0 <= i < |assignments| ==> r[i] == assignments[i].userId && assignments[i] in assignments;
    r
  }

  function RoleIds(assignments: seq<Assignment>): (r: seq<nat>)
    ensures |r| == |assignments|
    ensures forall u :: u in r <==> exists a :: a in assignments && a.roleId == u
  {
    var r := seq(|assignments|, i requires 0 <= i < |assignments| => assignments[i].roleId);
    assert forall i :: 0 <= i < |assignments| ==> r[i] == assignments[i].roleId && assignments[i] in assignments;
    r
  }

  /** Users of every membership row of a community. */
  function MemberIds(members: seq<Member>, community: nat): (r: seq<nat>)
    ensures forall u :: u in r <==> exists m :: m in members && m.communityId == community && m.userId == u
  {
    var rows := Where(members, (x: Member) => x.communityId == community);
    var r := seq(|rows|, i requires 0 <= i < |rows| => rows[i].userId);
    assert forall i :: 0 <= i < |rows| ==> r[i] == rows[i].userId && rows[i] in rows;
    r
  }

  function MembersAmong(members: seq<Member>, community: nat, picks: seq<nat>): (r: seq<Member>)
    ensures forall x :: x in r <==> x in members && x.communityId == community && x.userId in picks
  {
    Where(members, (x: Member) => x.communityId == community && x.userId in picks)
  }

  function WithoutRole(roles: seq<Role>, id: nat): (r: seq<Role>)
    ensures forall x :: x in r <==> x in roles && x.id != id
  {
    Where(roles, (x: Role) => x.id != id)
  }

  function WithoutAssignments(assignments: seq<Assignment>, role: nat): (r: seq<Assignment>)
    ensures forall x :: x in r <==> x in assignments && x.roleId != role
  {
    Where(assignments, (x: Assignment) => x.roleId != role)
  }

  function WithoutAssignmentsAmong(assignments: seq<Assignment>, role: nat, users: seq<nat>): (r: seq<Assignment>)
    ensures forall x :: x in r <==> x in assignments && !(x.roleId == role && x.userId in users)
  {
    Where(assignments, (x: Assignment) => !(x.roleId == role && x.userId in users))
  }

  // What is left when everything of one community is deleted.

  function RolesOutside(roles: seq<Role>, community: nat): (r: seq<Role>)
    ensures forall x :: x in r <==> x in roles && x.communityId != community
  {
    Where(roles, (x: Role) => x.communityId != community)
  }

  function AssignmentsOutside(assignments: seq<Assignment>, community: nat): (r: seq<Assignment>)
    ensures forall x :: x in r <==> x in assignments && x.communityId != community
  {
    Where(assignments, (x: Assignment) => x.communityId != community)
  }

  function MembersOutside(members: seq<Member>, community: nat): (r: seq<Member>)
    ensures forall x :: x in r <==> x in members && x.communityId != community
  {
    Where(members, (x: Member) => x.communityId != community)
  }

  /** One inserted assignment row per selected membership row. */
  function NewAssignments(role: nat, community: nat, rows: seq<Member>): (r: seq<Assignment>)
    ensures |r| == |rows|
    ensures forall i :: 0 <= i < |rows| ==> r[i] == Assignment(role, rows[i].userId, community)
  {
    seq(|rows|, i requires 0 <= i < |rows| => Assignment(role, rows[i].userId, community))
  }

  // Each UPDATE is a row function applied to every row of its table.

  function RoleSet(r: Role, id: nat, name: string, show: bool, bits: Bits): Role {
    if r.id == id then r.(name := name, showOnlineDifferently := show, bits := bits) else r
  }

  function SetRole(roles: seq<Role>, id: nat, name: string, show: bool, bits: Bits): (r: seq<Role>)
    ensures |r| == |roles| && forall i :: 0 <= i < |roles| ==> r[i] == RoleSet(roles[i], id, name, show, bits)
  {
    seq(|roles|, i requires 0 <= i < |roles| => RoleSet(roles[i], id, name, show, bits))
  }

  function PrioritySet(r: Role, id: nat, community: nat, priority: nat): Role {
    if r.id == id && r.communityId == community then r.(priority := priority) else r
  }

  function SetPriority(roles: seq<Role>, id: nat, community: nat, priority: nat): (r: seq<Role>)
    ensures |r| == |roles| && forall i :: 0 <= i < |roles| ==> r[i] == PrioritySet(roles[i], id, community, priority)
  {
    seq(|roles|, i requires 0 <= i < |roles| => PrioritySet(roles[i], id, community, priority))
  }

  predicate RowOf(m: Member, user: nat, community: nat) {
    m.userId == user && m.communityId == community
  }

  function BitsSet(m: Member, user: nat, community: nat, bits: Bits): Member {
    if RowOf(m, user, community) then m.(bits := bits) else m
  }

  function SetBits(members: seq<Member>, user: nat, community: nat, bits: Bits): (r: seq<Member>)
    ensures |r| == |members| && forall i :: 0 <= i < |members| ==> r[i] == BitsSet(members[i], user, community, bits)
  {
    seq(|members|, i requires 0 <= i < |members| => BitsSet(members[i], user, community, bits))
  }

  function BitsGranted(m: Member, user: nat, community: nat, grant: Bits): Member {
    if RowOf(m, user, community) then m.(bits := Or(m.bits, grant)) else m
  }

  /** `UPDATE … SET <columns of grant> = true` for one user of one community. */
  function GrantBits(members: seq<Member>, user: nat, community: nat, grant: Bits): (r: seq<Member>)
    ensures |r| == |members|
    ensures forall i :: 0 <= i < |members| ==> r[i] == BitsGranted(members[i], user, community, grant)
  {
    seq(|members|, i requires 0 <= i < |members| => BitsGranted(members[i], user, community, grant))
  }

  function ChannelSet(m: Member, user: nat, community: nat, channel: nat): Member {
    if RowOf(m, user, community) then m.(selectedChannelId := channel) else m
  }

  function SetChannel(members: seq<Member>, user: nat, community: nat, channel: nat): (r: seq<Member>)
    ensures |r| == |members|
    ensures forall i :: 0 <= i < |members| ==> r[i] == ChannelSet(members[i], user, community, channel)
  {
    seq(|members|, i requires 0 <= i < |members| => ChannelSet(members[i], user, community, channel))
  }
}
