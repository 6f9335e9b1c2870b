/** The channel page's member lists: every fetched user in one place, by the strongest role that is shown. */
module ChannelPage {
  import opened ByteText
  import opened Tables

  datatype User = User(id: nat, handle: string)

  // ---------------------------------------------------------------- sorting

  predicate PriorityLeq(a: Role, b: Role) {
    a.priority <= b.priority
  }

  predicate TextLeq(a: string, b: string) {
    a == [] || (b != [] && (a[0] < b[0] || (a[0] == b[0] && TextLeq(a[1..], b[1..]))))
  }

  predicate HandleLeq(a: User, b: User) {
    TextLeq(a.handle, b.handle)
  }

  lemma {:induction false} TextsCompare(a: string, b: string)
    ensures TextLeq(a, b) || TextLeq(b, a)
  {
    if a != [] && b != [] && a[0] == b[0] { TextsCompare(a[1..], b[1..]); }
  }

  lemma {:induction false} TextsChain(a: string, b: string, c: string)
    requires TextLeq(a, b) && TextLeq(b, c)
    ensures TextLeq(a, c)
  {
    if a != [] && a[0] == b[0] && b[0] == c[0] { TextsChain(a[1..], b[1..], c[1..]); }
  }

  /** The texts agree up to a place where the first has the smaller character. */
  predicate SmallerAt(a: string, b: string, i: nat) {
    i < |a| && i < |b| && a[..i] == b[..i] && a[i] < b[i]
  }

  /** One text does not come after another: it is a beginning of it, or the smaller where they first differ. */
  ghost predicate NotAfter(a: string, b: string) {
    a <= b || exists i: nat :: SmallerAt(a, b, i)
  }

  lemma SmallerLater(a: string, b: string, i: nat)
    requires a != [] && b != [] && a[0] == b[0]
    ensures SmallerAt(a, b, i + 1) <==> SmallerAt(a[1..], b[1..], i)
  {
    if i < |a| - 1 && i < |b| - 1 {
      assert a[..i + 1] == [a[0]] + a[1..][..i] && b[..i + 1] == [b[0]] + b[1..][..i];
    }
  }

  lemma NotAfterTail(a: string, b: string)
    requires a != [] && b != [] && a[0] == b[0]
    ensures NotAfter(a, b) <==> NotAfter(a[1..], b[1..])
  {
    assert a <= b <==> a[1..] <= b[1..] by { assert a == [a[0]] + a[1..] && b == [b[0]] + b[1..]; }
    if i: nat :| SmallerAt(a, b, i) { SmallerLater(a, b, i - 1); }
    if i: nat :| SmallerAt(a[1..], b[1..], i) { SmallerLater(a, b, i); }
  }

  lemma NotAfterHead(a: string, b: string)
    requires a != [] && b != [] && a[0] != b[0]
    ensures NotAfter(a, b) <==> a[0] < b[0]
  {
    assert SmallerAt(a, b, 0) <==> a[0] < b[0];
    forall i: nat | 0 < i < |a| && i < |b| ensures !SmallerAt(a, b, i) { assert a[..i][0] != b[..i][0]; }
  }

  lemma {:induction false} TextLeqIff(a: string, b: string)
    ensures TextLeq(a, b) <==> NotAfter(a, b)
  {
    if a != [] && b != [] {
      if a[0] == b[0] {
        TextLeqIff(a[1..], b[1..]);
        NotAfterTail(a, b);
      } else {
        NotAfterHead(a, b);
      }
    }
  }

  ghost predicate TotalOrder<T(!new)>(leq: (T, T) -> bool) {
    && (forall a, b :: leq(a, b) || leq(b, a))
    && (forall a, b, c :: leq(a, b) && leq(b, c) ==> leq(a, c))
  }

  lemma HandlesOrdered()
    ensures TotalOrder(HandleLeq)
  {
    forall a: User, b: User ensures HandleLeq(a, b) || HandleLeq(b, a) { TextsCompare(a.handle, b.handle); }
    forall a: User, b: User, c: User | HandleLeq(a, b) && HandleLeq(b, c) ensures HandleLeq(a, c) {
      TextsChain(a.handle, b.handle, c.handle);
    }
  }

  ghost predicate Ordered<T(!new)>(rows: seq<T>, leq: (T, T) -> bool) {
    forall i, j :: 0 <= i < j < |rows| ==> leq(rows[i], rows[j])
  }

  function Insert<T(!new)>(rows: seq<T>, x: T, leq: (T, T) -> bool): (r: seq<T>)
    ensures multiset(r) == multiset(rows) + multiset{x}
  {
    if rows == [] then [x]
    else
      var init, last := rows[..|rows| - 1], rows[|rows| - 1];
      assert rows == init + [last];
      if leq(last, x) then rows + [x] else Insert(init, x, leq) + [last]
  }

  /** Rearranges the rows into order; nothing is said of rows the order does not tell apart. */
  function SortFunc<T(!new)>(rows: seq<T>, leq: (T, T) -> bool): (r: seq<T>)
    ensures multiset(r) == multiset(rows)
  {
    if rows == [] then []
    else
      assert rows == rows[..|rows| - 1] + [rows[|rows| - 1]];
      Insert(SortFunc(rows[..|rows| - 1], leq), rows[|rows| - 1], leq)
  }

  lemma {:induction false} InsertOrdered<T(!new)>(rows: seq<T>, x: T, leq: (T, T) -> bool)
    requires TotalOrder(leq) && Ordered(rows, leq)
    ensures Ordered(Insert(rows, x, leq), leq)
  {
    if rows != [] {
      var init, last := rows[..|rows| - 1], rows[|rows| - 1];
      if leq(last, x) {
        forall i | 0 <= i < |rows| ensures leq(rows[i], x) { assert i < |init| ==> leq(rows[i], last); }
      } else {
        InsertOrdered(init, x, leq);
        var r := Insert(init, x, leq);
        SameElements(r, init + [x]);
        forall i | 0 <= i < |r| ensures leq(r[i], last) {
          assert r[i] in init + [x];
        }
      }
    }
  }

  lemma {:induction false} SortFuncOrders<T(!new)>(rows: seq<T>, leq: (T, T) -> bool)
    requires TotalOrder(leq)
    ensures Ordered(SortFunc(rows, leq), leq)
  {
    if rows != [] {
      SortFuncOrders(rows[..|rows| - 1], leq);
      InsertOrdered(SortFunc(rows[..|rows| - 1], leq), rows[|rows| - 1], leq);
    }
  }

  // ---------------------------------------------------------------- roles of a user

  /** The user holds the role, by the join rows fetched for the page. */
  ghost predicate Holds(cr: seq<Role>, rolesUsers: seq<Assignment>, user: nat, role: Role) {
    role in cr && exists a :: a in rolesUsers && a.userId == user && a.roleId == role.id
  }

  ghost predicate IsPowerful(cr: seq<Role>, rolesUsers: seq<Assignment>, user: nat, r: Role) {
    Holds(cr, rolesUsers, user, r) && forall s :: Holds(cr, rolesUsers, user, s) ==> r.priority <= s.priority
  }

  /** The strongest held role among those the page shows separately. */
  ghost predicate IsProminent(cr: seq<Role>, rolesUsers: seq<Assignment>, user: nat, r: Role) {
    && Holds(cr, rolesUsers, user, r) && r.showOnlineDifferently
    && forall s :: Holds(cr, rolesUsers, user, s) && s.showOnlineDifferently ==> r.priority <= s.priority
  }

  ghost predicate IndexOf(cr: seq<Role>, roles: map<nat, Role>) {
    && (forall r :: r in cr ==> r.id in roles && roles[r.id] == r)
    && (forall id :: id in roles ==> roles[id] in cr && roles[id].id == id)
  }

  function ShownRoles(cr: seq<Role>): (r: seq<Role>)
    ensures forall x :: x in r <==> x in cr && x.showOnlineDifferently
  {
    if cr == [] then []
    else
      var init, last := cr[..|cr| - 1], cr[|cr| - 1];
      assert cr == init + [last];
      if last.showOnlineDifferently then ShownRoles(init) + [last] else ShownRoles(init)
  }

  lemma {:induction false} ShownDistinct(cr: seq<Role>)
    requires DistinctIds(cr)
    ensures DistinctIds(ShownRoles(cr))
  {
    if cr != [] {
      var init, shown := cr[..|cr| - 1], ShownRoles(cr[..|cr| - 1]);
      ShownDistinct(init);
      forall i | 0 <= i < |shown| ensures shown[i].id != cr[|cr| - 1].id { assert shown[i] in init; }
    }
  }

  /** The user's roles in the order of the join rows. */
  function RolesHeld(roles: map<nat, Role>, rolesUsers: seq<Assignment>, user: nat): (held: seq<Role>) {
    if rolesUsers == [] then []
    else
      var init, last := RolesHeld(roles, rolesUsers[..|rolesUsers| - 1], user), rolesUsers[|rolesUsers| - 1];
      if last.roleId in roles && last.userId == user then init + [roles[last.roleId]] else init
  }

  lemma {:induction false} RolesHeldAreHeld(cr: seq<Role>, roles: map<nat, Role>, rolesUsers: seq<Assignment>,
                                            user: nat)
    requires IndexOf(cr, roles)
    ensures forall r :: r in RolesHeld(roles, rolesUsers, user) <==> Holds(cr, rolesUsers, user, r)
  {
    if rolesUsers != [] {
      var init, last := rolesUsers[..|rolesUsers| - 1], rolesUsers[|rolesUsers| - 1];
      RolesHeldAreHeld(cr, roles, init, user);
      assert rolesUsers == init + [last];
      forall r ensures r in RolesHeld(roles, rolesUsers, user) <==> Holds(cr, rolesUsers, user, r) {
        assert Holds(cr, rolesUsers, user, r) <==> Holds(cr, init, user, r) || Holds(cr, [last], user, r);
      }
    }
  }

  /** Strongest first. */
  function Ranked(roles: map<nat, Role>, rolesUsers: seq<Assignment>, user: nat): seq<Role> {
    SortFunc(RolesHeld(roles, rolesUsers, user), PriorityLeq)
  }

  lemma RankedRoles(cr: seq<Role>, roles: map<nat, Role>, rolesUsers: seq<Assignment>, user: nat)
    requires IndexOf(cr, roles)
    ensures Ordered(Ranked(roles, rolesUsers, user), PriorityLeq)
    ensures forall r :: r in Ranked(roles, rolesUsers, user) <==> Holds(cr, rolesUsers, user, r)
  {
    RolesHeldAreHeld(cr, roles, rolesUsers, user);
    SortFuncOrders(RolesHeld(roles, rolesUsers, user), PriorityLeq);
    SameElements(RolesHeld(roles, rolesUsers, user), Ranked(roles, rolesUsers, user));
  }

  function FirstShown(rows: seq<Role>): (r: Option<Role>) {
    if rows == [] then None else if rows[0].showOnlineDifferently then Some(rows[0]) else FirstShown(rows[1..])
  }

  lemma {:induction false} FirstShownIsStrongest(rows: seq<Role>)
    requires Ordered(rows, PriorityLeq)
    ensures FirstShown(rows).None? ==> forall r :: r in rows ==> !r.showOnlineDifferently
    ensures FirstShown(rows).Some? ==> FirstShown(rows).value in rows && FirstShown(rows).value.showOnlineDifferently
    ensures FirstShown(rows).Some? ==>
              forall r :: r in rows && r.showOnlineDifferently ==> PriorityLeq(FirstShown(rows).value, r)
  {
    if rows != [] {
      FirstShownIsStrongest(rows[1..]);
      assert forall r :: r in rows <==> r == rows[0] || r in rows[1..];
    }
  }

  // ---------------------------------------------------------------- the handler's loops

  /** A loop variable whose address is kept. */
  class RoleVar {
    var role: Role

    constructor (r: Role)
      ensures role == r
    {
      role := r;
    }
  }

  method SplitRoles(cr: seq<Role>) returns (vcr: seq<Role>, crIdMap: map<nat, Role>)
    requires DistinctIds(cr)
    ensures vcr == ShownRoles(cr) && IndexOf(cr, crIdMap)
  {
    vcr, crIdMap := [], map[];
    for i := 0 to |cr|
      invariant vcr == ShownRoles(cr[..i])
      invariant forall k :: 0 <= k < i ==> cr[k].id in crIdMap && crIdMap[cr[k].id] == cr[k]
      invariant forall id :: id in crIdMap ==> crIdMap[id] in cr && crIdMap[id].id == id
    {
      assert cr[..i + 1][..i] == cr[..i];
      if cr[i].showOnlineDifferently { vcr := vcr + [cr[i]]; }
      crIdMap := crIdMap[cr[i].id := cr[i]];
    }
    assert cr[..|cr|] == cr;
  }

  method RankRoles(user: nat, crIdMap: map<nat, Role>, rolesUsers: seq<Assignment>) returns (userRoles: array<Role>)
    ensures fresh(userRoles) && userRoles[..] == Ranked(crIdMap, rolesUsers, user)
  {
    var held: seq<Role> := [];
    for i := 0 to |rolesUsers|
      invariant held == RolesHeld(crIdMap, rolesUsers[..i], user)
    {
      assert rolesUsers[..i + 1][..i] == rolesUsers[..i];
      var ru := rolesUsers[i];
      if ru.roleId in crIdMap && ru.userId == user { held := held + [crIdMap[ru.roleId]]; }
    }
    assert rolesUsers[..|rolesUsers|] == rolesUsers;
    var sorted := SortFunc(held, PriorityLeq);
    userRoles := new Role[|sorted|](i requires 0 <= i < |sorted| => sorted[i]);
    assert userRoles[..] == sorted;
  }

  /** The loop variable that holds the first shown role when the loop stops there. */
  method PickShown(userRoles: array<Role>) returns (shown: RoleVar?)
    ensures shown != null <==> FirstShown(userRoles[..]).Some?
    ensures shown != null ==> fresh(shown) && Some(shown.role) == FirstShown(userRoles[..])
  {
    shown := null;
    if userRoles.Length > 0 {
      var ur := new RoleVar(userRoles[0]);
      for k := 0 to userRoles.Length
        invariant shown == null && FirstShown(userRoles[..]) == FirstShown(userRoles[k..])
      {
        assert userRoles[k..][1..] == userRoles[k + 1..];
        ur.role := userRoles[k];
        if ur.role.showOnlineDifferently {
          shown := ur;
          break;
        }
      }
    }
  }

  /** What the three maps keep for a user whose ranked roles are given. */
  ghost predicate Kept(user: nat, ranked: seq<Role>, urMap: map<nat, array<Role>>, urhMap: map<nat, array<Role>>,
                       urVMap: map<nat, RoleVar>)
    reads urMap.Values, urVMap.Values
  {
    && user in urMap && urMap[user][..] == ranked
    && (user in urhMap <==> ranked != []) && (user in urhMap ==> urhMap[user] == urMap[user])
    && (user in urVMap <==> FirstShown(ranked).Some?)
    && (user in urVMap ==> Some(urVMap[user].role) == FirstShown(ranked))
  }

  ghost predicate DistinctUsers(users: seq<User>) {
    forall i, j :: 0 <= i < j < |users| ==> users[i].id != users[j].id
  }

  ghost predicate AllKept(users: seq<User>, roles: map<nat, Role>, rolesUsers: seq<Assignment>,
                          urMap: map<nat, array<Role>>, urhMap: map<nat, array<Role>>, urVMap: map<nat, RoleVar>)
    reads urMap.Values, urVMap.Values
  {
    forall k :: 0 <= k < |users| ==> Kept(users[k].id, Ranked(roles, rolesUsers, users[k].id), urMap, urhMap, urVMap)
  }

  lemma KeptElsewhere(user: nat, other: nat, ranked: seq<Role>, userRoles: array<Role>, shown: RoleVar?,
                      urMap: map<nat, array<Role>>, urhMap: map<nat, array<Role>>, urVMap: map<nat, RoleVar>)
    requires Kept(user, ranked, urMap, urhMap, urVMap) && user != other
    ensures Kept(user, ranked, urMap[other := userRoles],
                 if userRoles.Length > 0 then urhMap[other := userRoles] else urhMap,
                 if shown != null then urVMap[other := shown] else urVMap)
  {
  }

  lemma KeptHere(user: nat, ranked: seq<Role>, userRoles: array<Role>, shown: RoleVar?,
                 urMap: map<nat, array<Role>>, urhMap: map<nat, array<Role>>, urVMap: map<nat, RoleVar>)
    requires user !in urhMap && user !in urVMap && userRoles[..] == ranked
    requires shown != null <==> FirstShown(ranked).Some?
    requires shown != null ==> Some(shown.role) == FirstShown(ranked)
    ensures Kept(user, ranked, urMap[user := userRoles],
                 if userRoles.Length > 0 then urhMap[user := userRoles] else urhMap,
                 if shown != null then urVMap[user := shown] else urVMap)
  {
  }

  lemma KeptNext(users: seq<User>, u: User, roles: map<nat, Role>, rolesUsers: seq<Assignment>, userRoles: array<Role>,
                 shown: RoleVar?, urMap: map<nat, array<Role>>, urhMap: map<nat, array<Role>>,
                 urVMap: map<nat, RoleVar>)
    requires (forall k :: 0 <= k < |users| ==> users[k].id != u.id)
             && AllKept(users, roles, rolesUsers, urMap, urhMap, urVMap)
    requires u.id !in urhMap && u.id !in urVMap
    requires userRoles[..] == Ranked(roles, rolesUsers, u.id)
    requires shown != null <==> FirstShown(userRoles[..]).Some?
    requires shown != null ==> Some(shown.role) == FirstShown(userRoles[..])
    ensures AllKept(users + [u], roles, rolesUsers, urMap[u.id := userRoles],
                    if userRoles.Length > 0 then urhMap[u.id := userRoles] else urhMap,
                    if shown != null then urVMap[u.id := shown] else urVMap)
  {
    var all := users + [u];
    assert all[|users|] == u && forall k :: 0 <= k < |users| ==> all[k] == users[k];
    forall k | 0 <= k < |all|
      ensures Kept(all[k].id, Ranked(roles, rolesUsers, all[k].id), urMap[u.id := userRoles],
                   if userRoles.Length > 0 then urhMap[u.id := userRoles] else urhMap,
                   if shown != null then urVMap[u.id := shown] else urVMap)
    {
      if k < |users| {
        KeptElsewhere(users[k].id, u.id, Ranked(roles, rolesUsers, users[k].id), userRoles, shown, urMap, urhMap,
                      urVMap);
      } else {
        KeptHere(u.id, Ranked(roles, rolesUsers, u.id), userRoles, shown, urMap, urhMap, urVMap);
      }
    }
  }

  /** Fills the maps; the strongest role is kept as a pointer to the first element of the user's own slice. */
  method PickRoles(users: seq<User>, crIdMap: map<nat, Role>, rolesUsers: seq<Assignment>)
    returns (urMap: map<nat, array<Role>>, urhMap: map<nat, array<Role>>, urVMap: map<nat, RoleVar>)
    requires DistinctUsers(users)
    ensures AllKept(users, crIdMap, rolesUsers, urMap, urhMap, urVMap)
  {
    urMap, urhMap, urVMap := map[], map[], map[];
    for i := 0 to |users|
      invariant forall j :: i <= j < |users| ==> users[j].id !in urhMap && users[j].id !in urVMap
      invariant AllKept(users[..i], crIdMap, rolesUsers, urMap, urhMap, urVMap)
    {
      var u := users[i];
      var userRoles := RankRoles(u.id, crIdMap, rolesUsers);
      var shown := PickShown(userRoles);
      assert users[..i] + [u] == users[..i + 1];
      KeptNext(users[..i], u, crIdMap, rolesUsers, userRoles, shown, urMap, urhMap, urVMap);
      urMap := urMap[u.id := userRoles];
      if userRoles.Length > 0 {
        urhMap := urhMap[u.id := userRoles];
        if shown != null { urVMap := urVMap[u.id := shown]; }
      }
    }
    assert users[..|users|] == users;
  }

  // ---------------------------------------------------------------- one place for every user

  function Unplaced(users: seq<User>, chosen: map<nat, Role>): (r: seq<User>)
    ensures forall u :: u in r <==> u in users && u.id !in chosen
  {
    if users == [] then []
    else
      var init, last := users[..|users| - 1], users[|users| - 1];
      assert users == init + [last];
      if last.id in chosen then Unplaced(init, chosen) else Unplaced(init, chosen) + [last]
  }

  function PlacedUnder(users: seq<User>, chosen: map<nat, Role>, role: nat): (r: seq<User>)
    ensures forall u :: u in r <==> u in users && u.id in chosen && chosen[u.id].id == role
  {
    if users == [] then []
    else
      var init, last := users[..|users| - 1], users[|users| - 1];
      assert users == init + [last];
      if last.id in chosen && chosen[last.id].id == role then PlacedUnder(init, chosen, role) + [last]
      else PlacedUnder(init, chosen, role)
  }

  /** Everyone listed under some role, as often as listed. */
  ghost function Listed(vcr: seq<Role>, lists: map<nat, seq<User>>): multiset<User>
    requires forall r :: r in vcr ==> r.id in lists
  {
    if vcr == [] then multiset{}
    else
      assert vcr[|vcr| - 1] in vcr && forall r :: r in vcr[..|vcr| - 1] ==> r in vcr;
      Listed(vcr[..|vcr| - 1], lists) + multiset(lists[vcr[|vcr| - 1].id])
  }

  ghost predicate ListsUnder(users: seq<User>, chosen: map<nat, Role>, vcr: seq<Role>, lists: map<nat, seq<User>>) {
    forall r :: r in vcr ==> r.id in lists && lists[r.id] == PlacedUnder(users, chosen, r.id)
  }

  lemma PlacedNext(users: seq<User>, u: User, chosen: map<nat, Role>, role: nat)
    ensures PlacedUnder(users + [u], chosen, role)
         == PlacedUnder(users, chosen, role) + if u.id in chosen && chosen[u.id].id == role then [u] else []
  {
  }

  predicate Among(vcr: seq<Role>, role: nat) {
    exists r :: r in vcr && r.id == role
  }

  lemma AmongInit(vcr: seq<Role>, role: nat)
    requires vcr != [] && DistinctIds(vcr)
    ensures var init := vcr[..|vcr| - 1]; Among(vcr, role) <==> Among(init, role) || vcr[|vcr| - 1].id == role
    ensures !Among(vcr[..|vcr| - 1], vcr[|vcr| - 1].id)
  {
  }

  /** One more user adds itself to the lists exactly once if its role is among them, and otherwise not at all. */
  lemma {:induction false} ListedNext(users: seq<User>, u: User, chosen: map<nat, Role>, vcr: seq<Role>,
                                      lists: map<nat, seq<User>>, lists': map<nat, seq<User>>)
    requires DistinctIds(vcr) && ListsUnder(users, chosen, vcr, lists) && ListsUnder(users + [u], chosen, vcr, lists')
    ensures Listed(vcr, lists') == Listed(vcr, lists)
            + if u.id in chosen && Among(vcr, chosen[u.id].id) then multiset{u} else multiset{}
  {
    if vcr != [] {
      var init, last := vcr[..|vcr| - 1], vcr[|vcr| - 1];
      assert vcr == init + [last];
      ListedNext(users, u, chosen, init, lists, lists');
      PlacedNext(users, u, chosen, last.id);
      if u.id in chosen { AmongInit(vcr, chosen[u.id].id); }
    }
  }

  ghost function ListsOf(users: seq<User>, chosen: map<nat, Role>, vcr: seq<Role>): (lists: map<nat, seq<User>>)
    ensures ListsUnder(users, chosen, vcr, lists)
  {
    map id | id in (set r | r in vcr :: r.id) :: PlacedUnder(users, chosen, id)
  }

  /** The two kinds of lists together hold every fetched user exactly once. */
  lemma {:induction false} EachUserOnce(users: seq<User>, chosen: map<nat, Role>, vcr: seq<Role>,
                                        lists: map<nat, seq<User>>)
    requires DistinctIds(vcr) && ListsUnder(users, chosen, vcr, lists)
    requires forall u :: u in users && u.id in chosen ==> Among(vcr, chosen[u.id].id)
    ensures multiset(Unplaced(users, chosen)) + Listed(vcr, lists) == multiset(users)
  {
    if users == [] {
      ListedNone(vcr, chosen, lists);
    } else {
      var init, last := users[..|users| - 1], users[|users| - 1];
      assert users == init + [last];
      var before := ListsOf(init, chosen, vcr);
      EachUserOnce(init, chosen, vcr, before);
      ListedNext(init, last, chosen, vcr, before, lists);
    }
  }

  lemma {:induction false} ListedNone(vcr: seq<Role>, chosen: map<nat, Role>, lists: map<nat, seq<User>>)
    requires ListsUnder([], chosen, vcr, lists)
    ensures Listed(vcr, lists) == multiset{}
  {
    if vcr != [] {
      assert vcr == vcr[..|vcr| - 1] + [vcr[|vcr| - 1]];
      ListedNone(vcr[..|vcr| - 1], chosen, lists);
    }
  }

  /** The roles the stored pointers lead to. */
  ghost function Choice(urVMap: map<nat, RoleVar>): map<nat, Role>
    reads urVMap.Values
  {
    map id | id in urVMap :: urVMap[id].role
  }

  method UsersWithout(users: seq<User>, urVMap: map<nat, RoleVar>) returns (unvr: seq<User>)
    ensures unvr == Unplaced(users, Choice(urVMap))
  {
    unvr := [];
    for i := 0 to |users|
      invariant unvr == Unplaced(users[..i], Choice(urVMap))
    {
      assert users[..i + 1][..i] == users[..i];
      if users[i].id !in urVMap { unvr := unvr + [users[i]]; }
    }
    assert users[..|users|] == users;
  }

  method UsersUnder(users: seq<User>, urVMap: map<nat, RoleVar>, role: nat) returns (uicr: seq<User>)
    ensures uicr == PlacedUnder(users, Choice(urVMap), role)
  {
    uicr := [];
    for i := 0 to |users|
      invariant uicr == PlacedUnder(users[..i], Choice(urVMap), role)
    {
      assert users[..i + 1][..i] == users[..i];
      if users[i].id in urVMap && urVMap[users[i].id].role.id == role { uicr := uicr + [users[i]]; }
    }
    assert users[..|users|] == users;
  }

  lemma ListsNext(users: seq<User>, chosen: map<nat, Role>, vcr: seq<Role>, j: nat, lists: map<nat, seq<User>>)
    requires j < |vcr| && ListsUnder(users, chosen, vcr[..j], lists)
    ensures ListsUnder(users, chosen, vcr[..j + 1], lists[vcr[j].id := PlacedUnder(users, chosen, vcr[j].id)])
  {
  }

  method GroupUsers(users: seq<User>, vcr: seq<Role>, urVMap: map<nat, RoleVar>)
    returns (unvr: seq<User>, vcruMap: map<nat, seq<User>>)
    ensures unvr == SortFunc(Unplaced(users, Choice(urVMap)), HandleLeq)
    ensures ListsUnder(users, Choice(urVMap), vcr, vcruMap)
  {
    var others := UsersWithout(users, urVMap);
    unvr := SortFunc(others, HandleLeq);
    vcruMap := ListUsers(users, vcr, urVMap);
  }

  method ListUsers(users: seq<User>, vcr: seq<Role>, urVMap: map<nat, RoleVar>) returns (vcruMap: map<nat, seq<User>>)
    ensures ListsUnder(users, Choice(urVMap), vcr, vcruMap)
  {
    ghost var chosen := Choice(urVMap);
    vcruMap := map[];
    for j := 0 to |vcr|
      invariant ListsUnder(users, chosen, vcr[..j], vcruMap)
    {
      var uicr := UsersUnder(users, urVMap, vcr[j].id);
      ListsNext(users, chosen, vcr, j, vcruMap);
      vcruMap := vcruMap[vcr[j].id := uicr];
    }
    assert vcr[..|vcr|] == vcr;
  }

  // ---------------------------------------------------------------- order

  ghost predicate Before<T>(rows: seq<T>, x: T, y: T) {
    exists a, b :: 0 <= a < b < |rows| && rows[a] == x && rows[b] == y
  }

  /** Whatever stands before something else in the list stands before it in the rows too. */
  ghost predicate Follows<T>(list: seq<T>, rows: seq<T>) {
    forall i, j :: 0 <= i < j < |list| ==> Before(rows, list[i], list[j])
  }

  lemma BeforeMore<T>(init: seq<T>, last: T, x: T, y: T)
    ensures Before(init, x, y) ==> Before(init + [last], x, y)
    ensures x in init ==> Before(init + [last], x, last)
  {
    var rows := init + [last];
    if a, b :| 0 <= a < b < |init| && init[a] == x && init[b] == y { assert rows[a] == x && rows[b] == y; }
    if a :| 0 <= a < |init| && init[a] == x { assert rows[a] == x && rows[|init|] == last; }
  }

  lemma FollowsMore<T>(list: seq<T>, init: seq<T>, last: T)
    requires Follows(list, init) && forall x :: x in list ==> x in init
    ensures Follows(list, init + [last]) && Follows(list + [last], init + [last])
  {
    forall i, j | 0 <= i < j < |list| + 1 ensures Before(init + [last], list[i], (list + [last])[j]) {
      BeforeMore(init, last, list[i], (list + [last])[j]);
    }
    forall i, j | 0 <= i < j < |list| ensures Before(init + [last], list[i], list[j]) {
      BeforeMore(init, last, list[i], list[j]);
    }
  }

  lemma {:induction false} ShownFollow(cr: seq<Role>)
    ensures Follows(ShownRoles(cr), cr)
  {
    if cr != [] {
      var init, last := cr[..|cr| - 1], cr[|cr| - 1];
      ShownFollow(init);
      FollowsMore(ShownRoles(init), init, last);
      assert cr == init + [last];
    }
  }

  lemma {:induction false} PlacedFollow(users: seq<User>, chosen: map<nat, Role>, role: nat)
    ensures Follows(PlacedUnder(users, chosen, role), users)
  {
    if users != [] {
      var init, last := users[..|users| - 1], users[|users| - 1];
      PlacedFollow(init, chosen, role);
      FollowsMore(PlacedUnder(init, chosen, role), init, last);
      assert users == init + [last];
    }
  }

  // ---------------------------------------------------------------- the whole computation

  ghost predicate NothingShown(cr: seq<Role>, rolesUsers: seq<Assignment>, user: nat) {
    forall r :: Holds(cr, rolesUsers, user, r) ==> !r.showOnlineDifferently
  }

  /** What the stored pointers mean for one user. */
  ghost predicate RightRoles(cr: seq<Role>, rolesUsers: seq<Assignment>, user: nat, urhMap: map<nat, array<Role>>,
                             urVMap: map<nat, RoleVar>)
    reads urhMap.Values, urVMap.Values
  {
    && (user in urhMap <==> exists r :: Holds(cr, rolesUsers, user, r))
    && (user in urhMap ==> urhMap[user].Length > 0 && IsPowerful(cr, rolesUsers, user, urhMap[user][0]))
    && (user in urVMap <==> !NothingShown(cr, rolesUsers, user))
    && (user in urVMap ==> IsProminent(cr, rolesUsers, user, urVMap[user].role))
  }

  lemma KeptIsRight(cr: seq<Role>, roles: map<nat, Role>, rolesUsers: seq<Assignment>, user: nat,
                    urMap: map<nat, array<Role>>, urhMap: map<nat, array<Role>>, urVMap: map<nat, RoleVar>)
    requires IndexOf(cr, roles) && Kept(user, Ranked(roles, rolesUsers, user), urMap, urhMap, urVMap)
    ensures RightRoles(cr, rolesUsers, user, urhMap, urVMap)
  {
    var ranked := Ranked(roles, rolesUsers, user);
    RankedRoles(cr, roles, rolesUsers, user);
    FirstShownIsStrongest(ranked);
    if ranked != [] {
      assert ranked[0] in ranked && urhMap[user][..] == ranked && urhMap[user][0] == ranked[0];
      forall s | Holds(cr, rolesUsers, user, s) ensures ranked[0].priority <= s.priority {
        var k :| 0 <= k < |ranked| && ranked[k] == s;
        assert k > 0 ==> PriorityLeq(ranked[0], ranked[k]);
      }
    }
  }

  /** Every fetched user is listed in exactly one place: with the strongest of the shown roles it holds, or with the
      others when it holds none. */
  method MemberLists(cr: seq<Role>, users: seq<User>, rolesUsers: seq<Assignment>)
    returns (vcr: seq<Role>, urhMap: map<nat, array<Role>>, urVMap: map<nat, RoleVar>, unvr: seq<User>,
             vcruMap: map<nat, seq<User>>)
    requires DistinctIds(cr) && DistinctUsers(users)
    ensures vcr == ShownRoles(cr)
    ensures forall u :: u in users ==> RightRoles(cr, rolesUsers, u.id, urhMap, urVMap)
    ensures ListsUnder(users, Choice(urVMap), vcr, vcruMap)
    ensures multiset(unvr) + Listed(vcr, vcruMap) == multiset(users)
    ensures forall i, j :: 0 <= i < j < |unvr| ==> NotAfter(unvr[i].handle, unvr[j].handle)
    ensures forall u :: u in unvr <==> u in users && NothingShown(cr, rolesUsers, u.id)
    ensures Follows(vcr, cr) && forall r :: r in vcr <==> r in cr && r.showOnlineDifferently
    ensures forall r :: r in vcr ==> r.id in vcruMap && Follows(vcruMap[r.id], users)
    ensures forall r, u :: r in vcr ==>
              (u in vcruMap[r.id] <==> u in users && u.id in urVMap && urVMap[u.id].role.id == r.id)
  {
    var crIdMap: map<nat, Role>;
    vcr, crIdMap := SplitRoles(cr);
    var urMap;
    urMap, urhMap, urVMap := PickRoles(users, crIdMap, rolesUsers);
    forall u | u in users ensures RightRoles(cr, rolesUsers, u.id, urhMap, urVMap) {
      var k :| 0 <= k < |users| && users[k] == u;
      KeptIsRight(cr, crIdMap, rolesUsers, users[k].id, urMap, urhMap, urVMap);
    }
    unvr, vcruMap := GroupUsers(users, vcr, urVMap);
    ShownDistinct(cr);
    EachUserOnce(users, Choice(urVMap), vcr, vcruMap);
    HandlesOrdered();
    SortFuncOrders(Unplaced(users, Choice(urVMap)), HandleLeq);
    SameElements(unvr, Unplaced(users, Choice(urVMap)));
    forall i, j | 0 <= i < j < |unvr| ensures NotAfter(unvr[i].handle, unvr[j].handle) {
      assert HandleLeq(unvr[i], unvr[j]);
      TextLeqIff(unvr[i].handle, unvr[j].handle);
    }
    ShownFollow(cr);
    forall r | r in vcr ensures Follows(vcruMap[r.id], users) { PlacedFollow(users, Choice(urVMap), r.id); }
  }
}
