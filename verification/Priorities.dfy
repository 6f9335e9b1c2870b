/** Role priorities: the rewrite loop, and which runs keep the priorities of a community a permutation of 0..n-1. */
module Priorities {
  import opened Tables
  import opened Permissions
  import opened PermissionCorrectness

  predicate NoDup<T(==)>(s: seq<T>) {
    forall i, j :: 0 <= i < j < |s| ==> s[i] != s[j]
  }

  function Elems<T>(s: seq<T>): set<T> {
    set x | x in s
  }

  lemma {:induction false} ElemsCount<T>(s: seq<T>)
    ensures |Elems(s)| <= |s|
    ensures |Elems(s)| == |s| <==> NoDup(s)
  {
    if s != [] {
      var init, last := s[..|s| - 1], s[|s| - 1];
      ElemsCount(init);
      assert s == init + [last];
      assert Elems(s) == Elems(init) + {last};
      if last in init {
        assert Elems(s) == Elems(init);
        var i :| 0 <= i < |init| && init[i] == last;
        assert s[i] == s[|s| - 1];
      } else {
        assert NoDup(s) <==> NoDup(init) by {
          if NoDup(init) {
            forall i, j | 0 <= i < j < |s| ensures s[i] != s[j] { if j < |init| { assert init[i] != init[j]; } }
          }
          if NoDup(s) { forall i, j | 0 <= i < j < |init| ensures init[i] != init[j] { assert s[i] != s[j]; } }
        }
      }
    }
  }

  function Range(n: nat): (r: set<nat>)
    ensures |r| == n && forall k: nat :: k in r <==> k < n
  {
    if n == 0 then {} else Range(n - 1) + {n - 1}
  }

  // ---------------------------------------------------------------- the rewrite loop

  /** The last position of an id in the submitted list wins; roles of other communities and unlisted roles keep
      theirs. */
  lemma {:induction false} LastOccurrenceWins(roles: seq<Role>, c: nat, order: seq<nat>, i: nat)
    requires i < |roles|
    ensures var r := Reordered(roles, c, order)[i];
            if roles[i].communityId == c && roles[i].id in order
            then
              && r.priority < |order| && order[r.priority] == r.id
              && forall k :: r.priority < k < |order| ==> order[k] != r.id
            else r == roles[i]
  {
    if order != [] {
      var n := |order| - 1;
      assert order == order[..n] + [order[n]];
      LastOccurrenceWins(roles, c, order[..n], i);
    }
  }

  ghost predicate DistinctPriorities(roles: seq<Role>, c: nat) {
    forall i, j :: 0 <= i < j < |roles| && roles[i].communityId == c && roles[j].communityId == c
                   ==> roles[i].priority != roles[j].priority
  }

  /** The priorities of a community's roles are distinct and below their number. */
  ghost predicate Dense(roles: seq<Role>, c: nat) {
    && (forall r :: r in roles && r.communityId == c ==> r.priority < |RolesOf(roles, c)|)
    && DistinctPriorities(roles, c)
  }

  /** A duplicate-free list of exactly the community's roles. */
  ghost predicate Complete(order: seq<nat>, roles: seq<Role>, c: nat) {
    NoDup(order) && forall x :: x in order <==> HasRole(roles, x, c)
  }

  function RolePriorities(rows: seq<Role>): (p: seq<nat>)
    ensures |p| == |rows| && forall i :: 0 <= i < |rows| ==> p[i] == rows[i].priority
  {
    seq(|rows|, i requires 0 <= i < |rows| => rows[i].priority)
  }

  function Ids(rows: seq<Role>): (p: seq<nat>)
    ensures |p| == |rows| && forall i :: 0 <= i < |rows| ==> p[i] == rows[i].id
  {
    seq(|rows|, i requires 0 <= i < |rows| => rows[i].id)
  }

  lemma RolesOfStep(roles: seq<Role>, c: nat)
    requires roles != []
    ensures RolesOf(roles, c) == (if roles[0].communityId == c then [roles[0]] else []) + RolesOf(roles[1..], c)
  {
  }

  ghost predicate Apart(roles: seq<Role>, c: nat, key: Role -> nat) {
    forall i, j :: 0 <= i < j < |roles| && roles[i].communityId == c && roles[j].communityId == c
      ==> key(roles[i]) != key(roles[j])
  }

  /** Filtering does not bring two rows with the same key together. */
  lemma {:induction false} FilteredApart(roles: seq<Role>, c: nat, key: Role -> nat)
    requires Apart(roles, c, key)
    ensures Apart(RolesOf(roles, c), c, key)
  {
    if roles != [] {
      RolesOfStep(roles, c);
      FilteredApart(roles[1..], c, key);
      var rest := RolesOf(roles[1..], c);
      forall j | 0 <= j < |rest| && roles[0].communityId == c ensures key(roles[0]) != key(rest[j]) {
        assert rest[j] in rest;
        var k :| 0 <= k < |roles[1..]| && roles[1..][k] == rest[j];
        assert roles[k + 1] == rest[j];
      }
    }
  }

  lemma RolesOfDistinct(roles: seq<Role>, c: nat)
    ensures DistinctIds(roles) ==> NoDup(Ids(RolesOf(roles, c)))
    ensures Dense(roles, c) ==> NoDup(RolePriorities(RolesOf(roles, c)))
  {
    var rows := RolesOf(roles, c);
    assert forall i :: 0 <= i < |rows| ==> rows[i] in rows;
    if DistinctIds(roles) {
      FilteredApart(roles, c, (r: Role) => r.id);
    }
    if Dense(roles, c) {
      FilteredApart(roles, c, (r: Role) => r.priority);
    }
  }

  /** Dense priorities are exactly 0..n-1. */
  lemma DenseIsPermutation(roles: seq<Role>, c: nat)
    requires Dense(roles, c)
    ensures Elems(RolePriorities(RolesOf(roles, c))) == Range(|RolesOf(roles, c)|)
  {
    var rows := RolesOf(roles, c);
    var p := RolePriorities(rows);
    RolesOfDistinct(roles, c);
    ElemsCount(p);
    forall x | x in p ensures x < |rows| {
      var i :| 0 <= i < |p| && p[i] == x;
      assert rows[i] in rows;
    }
    FullSubset(Elems(p), Range(|rows|));
  }

  lemma {:induction false} FullSubset(a: set<nat>, b: set<nat>)
    requires a <= b && |a| == |b|
    ensures a == b
  {
    if x :| x in b && x !in a {
      Smaller(a, b - {x});
    }
  }

  lemma {:induction false} Smaller(a: set<nat>, b: set<nat>)
    requires a <= b
    ensures |a| <= |b|
  {
    if x :| x in a { Smaller(a - {x}, b - {x}); }
  }

  // ---------------------------------------------------------------- what each handler does to them

  lemma CountSplit(a: seq<Role>, b: seq<Role>, c: nat)
    ensures RolesOf(a + b, c) == RolesOf(a, c) + RolesOf(b, c)
  {
    WhereSplit(a, b, InCommunity(c));
  }

  /** Updating rows without moving them between communities keeps the count. */
  lemma {:induction false} CountKept(roles: seq<Role>, roles': seq<Role>, c: nat)
    requires |roles| == |roles'| && forall i :: 0 <= i < |roles| ==> roles[i].communityId == roles'[i].communityId
    ensures |RolesOf(roles, c)| == |RolesOf(roles', c)|
  {
    if roles != [] { CountKept(roles[1..], roles'[1..], c); }
  }

  lemma CreateKeepsDense(roles: seq<Role>, role: Role, c: nat)
    requires Dense(roles, c) && role.priority == |RolesOf(roles, role.communityId)|
    ensures Dense(roles + [role], c)
  {
    CountSplit(roles, [role], c);
    assert RolesOf([role], c) == if role.communityId == c then [role] else [];
    forall i, j | 0 <= i < j < |roles + [role]| && (roles + [role])[i].communityId == c
      && (roles + [role])[j].communityId == c
      ensures (roles + [role])[i].priority != (roles + [role])[j].priority
    {
      assert roles[i] in roles;
    }
  }

  /** A complete list is as long as the community has roles. */
  lemma CompleteCount(roles: seq<Role>, c: nat, order: seq<nat>)
    requires DistinctIds(roles) && Complete(order, roles, c)
    ensures |RolesOf(roles, c)| == |order|
  {
    var ids := Ids(RolesOf(roles, c));
    RolesOfDistinct(roles, c);
    ElemsCount(ids);
    ElemsCount(order);
    forall x ensures x in ids <==> x in order { IdsAre(roles, c, x); }
    assert Elems(ids) == Elems(order);
  }

  lemma IdsAre(roles: seq<Role>, c: nat, x: nat)
    ensures x in Ids(RolesOf(roles, c)) <==> HasRole(roles, x, c)
  {
  }

  /** After a complete reorder each role has its position in the list. */
  lemma CompleteReorderPositions(roles: seq<Role>, c: nat, order: seq<nat>, i: nat)
    requires Complete(order, roles, c) && i < |roles| && roles[i].communityId == c
    ensures var r := Reordered(roles, c, order)[i]; r.priority < |order| && order[r.priority] == r.id == roles[i].id
  {
    assert HasRole(roles, roles[i].id, c);
    LastOccurrenceWins(roles, c, order, i);
  }

  /** After a complete reorder the priorities are dense, whatever they were before. */
  lemma CompleteReorderDense(roles: seq<Role>, c: nat, order: seq<nat>)
    requires DistinctIds(roles) && Complete(order, roles, c)
    ensures Dense(Reordered(roles, c, order), c)
    ensures |RolesOf(Reordered(roles, c, order), c)| == |order|
    ensures forall r :: r in Reordered(roles, c, order) && r.communityId == c
              ==> r.priority < |order| && order[r.priority] == r.id
  {
    var after := Reordered(roles, c, order);
    CountKept(roles, after, c);
    CompleteCount(roles, c, order);
    forall i | 0 <= i < |after| && after[i].communityId == c
      ensures after[i].priority < |order| && order[after[i].priority] == after[i].id == roles[i].id
    {
      CompleteReorderPositions(roles, c, order, i);
    }
  }

  lemma RemoveAtCount(roles: seq<Role>, i: nat, c: nat)
    requires i < |roles|
    ensures |RolesOf(RemoveAt(roles, i), c)| == |RolesOf(roles, c)| - if roles[i].communityId == c then 1 else 0
  {
    CountSplit(roles[..i], roles[i..], c);
    CountSplit([roles[i]], roles[i + 1..], c);
    assert [roles[i]] + roles[i + 1..] == roles[i..] && roles[..i] + roles[i..] == roles;
    CountSplit(roles[..i], roles[i + 1..], c);
    RolesOfStep([roles[i]], c);
  }

  lemma RemoveAtTail(roles: seq<Role>, i: nat)
    requires 0 < i < |roles|
    ensures RemoveAt(roles, i) == [roles[0]] + RemoveAt(roles[1..], i - 1)
  {
  }

  lemma WithoutHead(roles: seq<Role>, id: nat)
    requires roles != []
    ensures WithoutRole(roles, id) == (if roles[0].id != id then [roles[0]] else []) + WithoutRole(roles[1..], id)
  {
  }

  lemma {:induction false} WithoutIsRemoveAt(roles: seq<Role>, i: nat)
    requires DistinctIds(roles) && i < |roles|
    ensures WithoutRole(roles, roles[i].id) == RemoveAt(roles, i)
  {
    var tail := roles[1..];
    WithoutHead(roles, roles[i].id);
    if i == 0 {
      WithoutNone(tail, roles[0].id);
    } else {
      assert tail[i - 1] == roles[i];
      WithoutIsRemoveAt(tail, i - 1);
      RemoveAtTail(roles, i);
    }
  }

  lemma {:induction false} WithoutNone(roles: seq<Role>, id: nat)
    requires forall i :: 0 <= i < |roles| ==> roles[i].id != id
    ensures WithoutRole(roles, id) == roles
  {
    if roles != [] { WithoutNone(roles[1..], id); }
  }

  lemma LastPriorityHeld(roles: seq<Role>, c: nat) returns (k: nat)
    requires Dense(roles, c) && RolesOf(roles, c) != []
    ensures k < |roles| && roles[k].communityId == c && roles[k].priority == |RolesOf(roles, c)| - 1
  {
    var rows := RolesOf(roles, c);
    DenseIsPermutation(roles, c);
    assert |rows| - 1 in Range(|rows|);
    var i :| 0 <= i < |rows| && RolePriorities(rows)[i] == |rows| - 1;
    assert rows[i] in rows;
    k :| 0 <= k < |roles| && roles[k] == rows[i];
  }

  lemma RemoveAtDistinct(roles: seq<Role>, i: nat, c: nat)
    requires i < |roles| && Dense(roles, c)
    ensures var rest := RemoveAt(roles, i);
            forall a, b :: 0 <= a < b < |rest| && rest[a].communityId == c && rest[b].communityId == c
                           ==> rest[a].priority != rest[b].priority
  {
  }

  /** Deleting keeps the priorities dense if and only if the deleted role came last. */
  lemma DeleteDenseIffLast(roles: seq<Role>, c: nat, i: nat)
    requires Dense(roles, c) && i < |roles| && roles[i].communityId == c
    ensures Dense(RemoveAt(roles, i), c) <==> roles[i].priority == |RolesOf(roles, c)| - 1
  {
    var rest := RemoveAt(roles, i);
    var n := |RolesOf(roles, c)|;
    RemoveAtCount(roles, i, c);
    RemoveAtDistinct(roles, i, c);
    assert roles[i] in RolesOf(roles, c);
    var k := LastPriorityHeld(roles, c);
    if k == i {
      forall r | r in rest && r.communityId == c ensures r.priority < n - 1 {
        var j :| 0 <= j < |rest| && rest[j] == r;
        assert roles[if j < i then j else j + 1] in roles;
      }
    } else {
      assert rest[if k < i then k else k - 1] in rest;
      assert roles[if k < i then k else i].priority != roles[if k < i then i else k].priority;
    }
  }

  /** Other communities' priorities stay dense. */
  lemma DeleteElsewhere(roles: seq<Role>, i: nat, c: nat)
    requires Dense(roles, c) && i < |roles| && roles[i].communityId != c
    ensures Dense(RemoveAt(roles, i), c)
  {
    RemoveAtCount(roles, i, c);
    RemoveAtDistinct(roles, i, c);
  }

  /** Deleting any role but the last and then creating one gives two roles the same priority. */
  lemma DeleteThenCreateClashes(roles: seq<Role>, c: nat, i: nat, added: Role)
    requires Dense(roles, c) && i < |roles| && roles[i].communityId == c
    requires roles[i].priority < |RolesOf(roles, c)| - 1
    requires added.communityId == c && added.priority == |RolesOf(RemoveAt(roles, i), c)|
    ensures exists r :: r in RemoveAt(roles, i) && r.communityId == c && r.priority == added.priority
  {
    RemoveAtCount(roles, i, c);
    var k := LastPriorityHeld(roles, c);
    assert RemoveAt(roles, i)[if k < i then k else k - 1] in RemoveAt(roles, i);
  }

  // ---------------------------------------------------------------- runs

  ghost predicate RolesTidy(db: Db) {
    && DistinctIds(db.roles)
    && (forall r :: r in db.roles ==> r.id < db.nextRole)
    && forall c :: Dense(db.roles, c)
  }

  /** A delete of the last role, or a complete reorder; other handlers are unrestricted. */
  ghost predicate Tidy(db: Db, op: Op) {
    match op
    case DeleteRole(c, role) =>
      forall r :: r in db.roles && r.id == role && r.communityId == c ==> r.priority == |RolesOf(db.roles, c)| - 1
    case EditPriorities(c, order) => Complete(order, db.roles, c)
    case _ => true
  }

  predicate SamePlace(r: Role, r': Role, c: nat) {
    r'.id == r.id && r'.communityId == r.communityId && (r.communityId == c ==> r'.priority == r.priority)
  }

  lemma KeyedRolesDense(roles: seq<Role>, roles': seq<Role>, c: nat)
    requires Dense(roles, c) && |roles| == |roles'|
    requires forall i :: 0 <= i < |roles| ==> SamePlace(roles[i], roles'[i], c)
    ensures Dense(roles', c)
  {
    CountKept(roles, roles', c);
    forall r | r in roles' && r.communityId == c ensures r.priority < |RolesOf(roles', c)| {
      var i :| 0 <= i < |roles'| && roles'[i] == r;
      assert roles[i] in roles;
    }
  }

  lemma KeptIds(roles: seq<Role>, roles': seq<Role>, next: nat)
    requires DistinctIds(roles) && (forall r :: r in roles ==> r.id < next)
    requires |roles| == |roles'| && forall i :: 0 <= i < |roles| ==> roles'[i].id == roles[i].id
    ensures DistinctIds(roles') && forall r :: r in roles' ==> r.id < next
  {
  }

  lemma TidyCreate(db: Db, role: Role)
    requires RolesTidy(db) && role.id == db.nextRole && role.priority == |RolesOf(db.roles, role.communityId)|
    ensures RolesTidy(db.(roles := db.roles + [role], nextRole := db.nextRole + 1))
  {
    var roles := db.roles + [role];
    forall k ensures Dense(roles, k) { CreateKeepsDense(db.roles, role, k); }
    forall i, j | 0 <= i < j < |roles| ensures roles[i].id != roles[j].id { assert roles[i] in db.roles; }
  }

  lemma TidyDelete(db: Db, i: nat)
    requires RolesTidy(db) && i < |db.roles|
    requires db.roles[i].priority == |RolesOf(db.roles, db.roles[i].communityId)| - 1
    ensures RolesTidy(db.(roles := WithoutRole(db.roles, db.roles[i].id)))
  {
    var rest := WithoutRole(db.roles, db.roles[i].id);
    WithoutIsRemoveAt(db.roles, i);
    forall k ensures Dense(rest, k) {
      if k == db.roles[i].communityId { DeleteDenseIffLast(db.roles, k, i); } else { DeleteElsewhere(db.roles, i, k); }
    }
  }

  lemma TidyReorder(db: Db, c: nat, order: seq<nat>)
    requires RolesTidy(db) && Complete(order, db.roles, c)
    ensures RolesTidy(db.(roles := Reordered(db.roles, c, order)))
  {
    var after := Reordered(db.roles, c, order);
    forall k ensures Dense(after, k) {
      if k == c {
        CompleteReorderDense(db.roles, c, order);
      } else {
        forall i | 0 <= i < |after|
          ensures SamePlace(db.roles[i], after[i], k)
        {
          LastOccurrenceWins(db.roles, c, order, i);
        }
        KeyedRolesDense(db.roles, after, k);
      }
    }
    KeptIds(db.roles, after, db.nextRole);
  }

  lemma TidyEdit(db: Db, id: nat, name: string, show: bool, bits: Bits)
    requires RolesTidy(db)
    ensures RolesTidy(db.(roles := SetRole(db.roles, id, name, show, bits)))
  {
    var after := SetRole(db.roles, id, name, show, bits);
    forall k ensures Dense(after, k) { KeyedRolesDense(db.roles, after, k); }
    KeptIds(db.roles, after, db.nextRole);
  }

  lemma OutsideStep(roles: seq<Role>, c: nat)
    requires roles != []
    ensures RolesOutside(roles, c)
         == (if roles[0].communityId != c then [roles[0]] else []) + RolesOutside(roles[1..], c)
  {
  }

  ghost predicate AllPairs(roles: seq<Role>, holds: (Role, Role) -> bool) {
    forall i, j :: 0 <= i < j < |roles| ==> holds(roles[i], roles[j])
  }

  /** What holds of every earlier and later row holds of those that are left. */
  lemma {:induction false} OutsidePairs(roles: seq<Role>, c: nat, holds: (Role, Role) -> bool)
    requires AllPairs(roles, holds)
    ensures AllPairs(RolesOutside(roles, c), holds)
  {
    if roles != [] {
      OutsideStep(roles, c);
      OutsidePairs(roles[1..], c, holds);
      var rest := RolesOutside(roles[1..], c);
      forall j | 0 <= j < |rest| ensures holds(roles[0], rest[j]) {
        assert rest[j] in rest;
        var k :| 0 <= k < |roles[1..]| && roles[1..][k] == rest[j];
        assert roles[k + 1] == rest[j];
      }
    }
  }

  lemma {:induction false} OutsideRoles(roles: seq<Role>, c: nat, k: nat)
    ensures RolesOf(RolesOutside(roles, c), k) == if k == c then [] else RolesOf(roles, k)
  {
    if roles != [] {
      OutsideStep(roles, c);
      OutsideRoles(roles[1..], c, k);
      RolesOfStep(roles, k);
      if roles[0].communityId != c {
        RolesOfStep(RolesOutside(roles, c), k);
        assert RolesOutside(roles, c)[1..] == RolesOutside(roles[1..], c);
      }
    }
  }

  lemma TidyErase(db: Db, c: nat)
    requires RolesTidy(db)
    ensures RolesTidy(Erased(db, c))
  {
    var out := RolesOutside(db.roles, c);
    OutsidePairs(db.roles, c, (r: Role, s: Role) => r.id != s.id);
    forall k ensures Dense(out, k) {
      OutsideRoles(db.roles, c, k);
      assert Dense(db.roles, k);
      OutsidePairs(db.roles, c, (r: Role, s: Role) => r.communityId == k && s.communityId == k
                   ==> r.priority != s.priority);
    }
  }

  /** Every handler keeps every community's priorities dense, deletes and partial reorders excepted as `Tidy` says. */
  lemma TidyStep(db: Db, op: Op)
    requires RolesTidy(db) && Tidy(db, op)
    ensures RolesTidy(Step(db, op))
  {
    var db' := Step(db, op);
    match op
    case CreateRole(c, name, show, bits, _) =>
      if c in db.communities { TidyCreate(db, Role(db.nextRole, c, name, show, |RolesOf(db.roles, c)|, bits)); }
    case EditRole(_, role, name, show, bits, _) =>
      TidyEdit(db, role, name, show, bits);
    case EditRoleHalf(_, role, name, show, bits) =>
      TidyEdit(db, role, name, show, bits);
    case DeleteCommunity(_, c) =>
      TidyErase(db, c);
    case DeleteRole(c, role) =>
      if c in db.communities && HasRole(db.roles, role, c) {
        var r :| r in db.roles && r.id == role && r.communityId == c;
        var i :| 0 <= i < |db.roles| && db.roles[i] == r;
        TidyDelete(db, i);
      }
    case EditPriorities(c, order) =>
      TidyReorder(db, c, order);
    case _ =>
  }

  ghost predicate AllTidy(db: Db, ops: seq<Op>) {
    ops == [] || (AllTidy(db, ops[..|ops| - 1]) && Tidy(Run(db, ops[..|ops| - 1]), ops[|ops| - 1]))
  }

  lemma {:induction false} RunTidy(ops: seq<Op>)
    requires AllTidy(EMPTY_DB, ops)
    ensures RolesTidy(Run(EMPTY_DB, ops))
  {
    if ops != [] {
      RunTidy(ops[..|ops| - 1]);
      TidyStep(Run(EMPTY_DB, ops[..|ops| - 1]), ops[|ops| - 1]);
    }
  }

  /** Over every such run from an empty database, each community's priorities are exactly 0..n-1. */
  lemma {:induction false} RunPrioritiesDense(ops: seq<Op>, c: nat)
    requires AllTidy(EMPTY_DB, ops)
    ensures RolesTidy(Run(EMPTY_DB, ops))
    ensures var rows := RolesOf(Run(EMPTY_DB, ops).roles, c); Elems(RolePriorities(rows)) == Range(|rows|)
  {
    RunTidy(ops);
    DenseIsPermutation(Run(EMPTY_DB, ops).roles, c);
  }

  lemma TidyDistinct(db: Db, c: nat)
    requires RolesTidy(db)
    ensures DistinctPriorities(db.roles, c)
  {
    assert Dense(db.roles, c);
  }

  // ---------------------------------------------------------------- reading the order back

  lemma {:induction false} IncreasingFrom(p: seq<nat>, i: nat, j: nat)
    requires i <= j < |p| && forall a, b :: 0 <= a < b < |p| ==> p[a] < p[b]
    ensures p[j] >= p[i] + (j - i)
  {
    if i < j { IncreasingFrom(p, i, j - 1); }
  }

  /** Increasing and filling 0..n-1 means equal to the index. */
  lemma IncreasingFull(p: seq<nat>, k: nat)
    requires Elems(p) == Range(|p|) && k < |p|
    requires forall a, b :: 0 <= a < b < |p| ==> p[a] <= p[b]
    ensures p[k] == k
  {
    ElemsCount(p);
    IncreasingFrom(p, 0, k);
    IncreasingFrom(p, k, |p| - 1);
    assert p[|p| - 1] in Elems(p);
  }

  /** After a complete reorder, any listing of the community's roles by priority is the submitted list. */
  lemma SortedReorderIsOrder(roles: seq<Role>, c: nat, order: seq<nat>, listed: seq<Role>)
    requires DistinctIds(roles) && Complete(order, roles, c)
    requires multiset(listed) == multiset(RolesOf(Reordered(roles, c, order), c))
    requires forall i, j :: 0 <= i < j < |listed| ==> listed[i].priority <= listed[j].priority
    ensures Ids(listed) == order
  {
    var after := Reordered(roles, c, order);
    var rows := RolesOf(after, c);
    CompleteReorderDense(roles, c, order);
    SameElements(listed, rows);
    DenseIsPermutation(after, c);
    SamePriorities(listed, rows);
    forall k | 0 <= k < |listed| ensures listed[k].id == order[k] {
      IncreasingFull(RolePriorities(listed), k);
      assert listed[k] in rows;
    }
  }

  lemma SamePriorities(a: seq<Role>, b: seq<Role>)
    requires forall r :: r in a <==> r in b
    ensures Elems(RolePriorities(a)) == Elems(RolePriorities(b))
  {
    forall x ensures x in RolePriorities(a) <==> x in RolePriorities(b) {
      if x in RolePriorities(a) {
        var i :| 0 <= i < |a| && RolePriorities(a)[i] == x;
        assert a[i] in b;
        var j :| 0 <= j < |b| && b[j] == a[i];
        assert RolePriorities(b)[j] == x;
      }
      if x in RolePriorities(b) {
        var i :| 0 <= i < |b| && RolePriorities(b)[i] == x;
        assert b[i] in a;
        var j :| 0 <= j < |a| && a[j] == b[i];
        assert RolePriorities(a)[j] == x;
      }
    }
  }
}
