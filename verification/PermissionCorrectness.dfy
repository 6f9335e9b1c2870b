/** Whole tables and whole runs: every stored row is right exactly as long as each call is safe, for all rows together
    and for each row by itself. */
module PermissionCorrectness {
  import opened ByteText
  import opened Tables
  import opened Permissions
  import opened PermissionRuns
  import opened PermissionRows

  // ---------------------------------------------------------------- one call on the whole table

  /** A handler that deletes no community keeps every row in its place and appends at most one. */
  lemma RowsInPlace(db: Db, op: Op)
    requires !(op.DeleteCommunity? && Applies(db, op))
    ensures |Step(db, op).members| == |db.members| + if NewRow(db, op).Some? then 1 else 0
    ensures forall i :: 0 <= i < |db.members| ==> Step(db, op).members[i] == RowAfter(db, op, db.members[i])
    ensures NewRow(db, op).Some? ==> Step(db, op).members[|db.members|] == NewRow(db, op).value
  {
  }

  /** The rows afterwards are what the surviving rows become, and the inserted one. */
  lemma RowsBecome(db: Db, op: Op)
    ensures forall m :: m in db.members && Survives(db, op, m) ==> RowAfter(db, op, m) in Step(db, op).members
    ensures NewRow(db, op).Some? ==> NewRow(db, op).value in Step(db, op).members
    ensures forall m' :: m' in Step(db, op).members ==>
              || NewRow(db, op) == Some(m')
              || exists m :: m in db.members && Survives(db, op, m) && RowAfter(db, op, m) == m'
  {
    if !(op.DeleteCommunity? && Applies(db, op)) {
      RowsInPlace(db, op);
      forall m | m in db.members ensures RowAfter(db, op, m) in Step(db, op).members {
        var i :| 0 <= i < |db.members| && db.members[i] == m;
        assert Step(db, op).members[i] in Step(db, op).members;
      }
      forall m' | m' in Step(db, op).members
        ensures || NewRow(db, op) == Some(m')
                || exists m :: m in db.members && Survives(db, op, m) && RowAfter(db, op, m) == m'
      {
        var i :| 0 <= i < |Step(db, op).members| && Step(db, op).members[i] == m';
        if i < |db.members| { assert db.members[i] in db.members; }
      }
    }
  }

  ghost predicate RightAfter(db: Db, op: Op, m: Member) {
    RowCorrect(Step(db, op), RowAfter(db, op, m))
  }

  ghost predicate NewRowRight(db: Db, op: Op) {
    NewRow(db, op).Some? ==> RowCorrect(Step(db, op), NewRow(db, op).value)
  }

  lemma CorrectIffRowsAre(db: Db, op: Op)
    ensures Correct(Step(db, op))
       <==> NewRowRight(db, op) && forall m :: m in db.members && Survives(db, op, m) ==> RightAfter(db, op, m)
  {
    RowsBecome(db, op);
  }

  lemma NewRowRightIff(db: Db, op: Op)
    requires Consistent(db)
    ensures NewRowRight(db, op) <==> NewRowSafe(db, op)
  {
    if NewRow(db, op).Some? { NewRowCorrectIff(db, op); }
  }

  /** One call from right rows: all right afterwards if and only if it was safe. */
  lemma StepCorrectIffSafe(db: Db, op: Op)
    requires Consistent(db) && Correct(db)
    ensures Correct(Step(db, op)) <==> Safe(db, op)
  {
    CorrectIffRowsAre(db, op);
    NewRowRightIff(db, op);
    forall m | m in db.members ensures (Survives(db, op, m) ==> RightAfter(db, op, m)) <==> RowSafe(db, op, m) {
      if Survives(db, op, m) {
        assert RowCorrect(db, m);
        RowCorrectIff(db, op, m);
      }
    }
  }

  ghost function Run(db: Db, ops: seq<Op>): Db {
    if ops == [] then db else Step(Run(db, ops[..|ops| - 1]), ops[|ops| - 1])
  }

  /** Every call was safe when it was made. */
  ghost predicate AllSafe(db: Db, ops: seq<Op>) {
    ops == [] || (AllSafe(db, ops[..|ops| - 1]) && Safe(Run(db, ops[..|ops| - 1]), ops[|ops| - 1]))
  }

  /** The rows are correct after every prefix of the run. */
  ghost predicate CorrectThroughout(db: Db, ops: seq<Op>) {
    Correct(Run(db, ops)) && (ops == [] || CorrectThroughout(db, ops[..|ops| - 1]))
  }

  /** Over every run from an empty database, keys stay well formed. */
  lemma {:induction false} RunConsistent(ops: seq<Op>)
    ensures Consistent(Run(EMPTY_DB, ops))
  {
    if ops != [] {
      RunConsistent(ops[..|ops| - 1]);
      ConsistentStep(Run(EMPTY_DB, ops[..|ops| - 1]), ops[|ops| - 1]);
    }
  }

  /** Over every run from an empty database, the rows are correct throughout if and only if every call was safe. */
  lemma {:induction false} RunCorrectIffSafe(ops: seq<Op>)
    ensures CorrectThroughout(EMPTY_DB, ops) <==> AllSafe(EMPTY_DB, ops)
  {
    if ops == [] {
      assert Correct(EMPTY_DB);
    } else {
      var init := ops[..|ops| - 1];
      RunCorrectIffSafe(init);
      RunConsistent(init);
      if Correct(Run(EMPTY_DB, init)) { StepCorrectIffSafe(Run(EMPTY_DB, init), ops[|ops| - 1]); }
    }
  }

  // ---------------------------------------------------------------- one row through a whole run

  /** What becomes of a row, while it is there. */
  ghost function RowRun(db: Db, ops: seq<Op>, m: Member): Option<Member> {
    if ops == [] then Some(m)
    else
      var init, op := ops[..|ops| - 1], ops[|ops| - 1];
      match RowRun(db, init, m)
      case None => None
      case Some(r) => if Survives(Run(db, init), op, r) then Some(RowAfter(Run(db, init), op, r)) else None
  }

  lemma {:induction false} RowRunStored(db: Db, ops: seq<Op>, m: Member)
    requires Consistent(db) && m in db.members
    ensures Consistent(Run(db, ops))
    ensures RowRun(db, ops, m).Some? ==> RowRun(db, ops, m).value in Run(db, ops).members
  {
    if ops != [] {
      var init := ops[..|ops| - 1];
      RowRunStored(db, init, m);
      ConsistentStep(Run(db, init), ops[|ops| - 1]);
      RowsBecome(Run(db, init), ops[|ops| - 1]);
    }
  }

  ghost predicate RowRightAfter(db: Db, ops: seq<Op>, m: Member) {
    RowRun(db, ops, m).Some? ==> RowCorrect(Run(db, ops), RowRun(db, ops, m).value)
  }

  /** The last call of the run was safe for the row, or the row was gone. */
  ghost predicate LastSafe(db: Db, ops: seq<Op>, m: Member)
    requires ops != []
  {
    var init, op := ops[..|ops| - 1], ops[|ops| - 1];
    RowRun(db, init, m).Some? && Survives(Run(db, init), op, RowRun(db, init, m).value) ==>
      RowSafe(Run(db, init), op, RowRun(db, init, m).value)
  }

  ghost predicate LastRewrites(db: Db, ops: seq<Op>, m: Member)
    requires ops != []
  {
    var init, op := ops[..|ops| - 1], ops[|ops| - 1];
    RowRun(db, init, m).Some? && Rewritten(Run(db, init), op, RowRun(db, init, m).value)
  }

  ghost predicate RowRightThroughout(db: Db, ops: seq<Op>, m: Member) {
    RowRightAfter(db, ops, m) && (ops == [] || RowRightThroughout(db, ops[..|ops| - 1], m))
  }

  ghost predicate RowSafeThroughout(db: Db, ops: seq<Op>, m: Member) {
    ops == [] || (LastSafe(db, ops, m) && RowSafeThroughout(db, ops[..|ops| - 1], m))
  }

  lemma RowRunStep(db: Db, ops: seq<Op>, m: Member)
    requires Consistent(db) && m in db.members && ops != []
    requires RowRightAfter(db, ops[..|ops| - 1], m) || LastRewrites(db, ops, m)
    ensures RowRightAfter(db, ops, m) <==> LastSafe(db, ops, m)
  {
    var init, op := ops[..|ops| - 1], ops[|ops| - 1];
    RowRunStored(db, init, m);
    if RowRun(db, ops, m).Some? { RowCorrectIff(Run(db, init), op, RowRun(db, init, m).value); }
  }

  /** Over every run a row that was right stays right, as long as it is there, if and only if every call was safe for
      that row, whatever becomes of the others. */
  lemma {:induction false} RowRunCorrectIff(db: Db, ops: seq<Op>, m: Member)
    requires Consistent(db) && m in db.members && RowCorrect(db, m)
    ensures RowRightThroughout(db, ops, m) <==> RowSafeThroughout(db, ops, m)
  {
    if ops != [] {
      RowRunCorrectIff(db, ops[..|ops| - 1], m);
      if RowRightThroughout(db, ops[..|ops| - 1], m) { RowRunStep(db, ops, m); }
    }
  }

  /** A wrong row is right again after the first call that rewrites it, and stays so as long as the calls are safe for
      it. */
  lemma {:induction false} RowRecovers(db: Db, ops: seq<Op>, m: Member, k: nat)
    requires Consistent(db) && m in db.members && 0 < k <= |ops| && LastRewrites(db, ops[..k], m)
    requires forall j :: k <= j <= |ops| ==> LastSafe(db, ops[..j], m)
    ensures RowRightAfter(db, ops, m)
  {
    assert ops[..|ops|] == ops;
    if k < |ops| {
      var init := ops[..|ops| - 1];
      forall j | k <= j <= |init| ensures LastSafe(db, init[..j], m) { assert init[..j] == ops[..j]; }
      assert init[..k] == ops[..k];
      RowRecovers(db, init, m, k);
    }
    RowRunStep(db, ops, m);
  }

  /** A default edit leaves the rows of its community on the old defaults; repeating the call brings them up to date. */
  lemma RepeatedDefaultEditRepairs(db: Db, c: nat, bits: Bits)
    requires Consistent(db) && c in db.communities
    ensures var db2 := Step(Step(db, EditDefaults(c, bits)), EditDefaults(c, bits));
            && db2.communities[c].defaults == bits
            && forall m :: m in db2.members && m.communityId == c ==> RowCorrect(db2, m)
  {
    var op := EditDefaults(c, bits);
    ConsistentStep(db, op);
    EditToSameDefaults(Step(db, op), op);
  }

  lemma WasRow(db: Db, op: Op, m: Member) returns (was: Member)
    requires op.EditDefaults? && m in Step(db, op).members
    ensures was in db.members && RowAfter(db, op, was) == m && was.communityId == m.communityId
  {
    RowsBecome(db, op);
    was :| was in db.members && Survives(db, op, was) && RowAfter(db, op, was) == m;
  }

  lemma EditToSameDefaults(db: Db, op: Op)
    requires Consistent(db) && op.EditDefaults? && op.community in db.communities
    requires db.communities[op.community].defaults == op.bits
    ensures forall m :: m in Step(db, op).members && m.communityId == op.community ==> RowCorrect(Step(db, op), m)
  {
    forall m | m in Step(db, op).members && m.communityId == op.community ensures RowCorrect(Step(db, op), m) {
      var was := WasRow(db, op, m);
      SameDefaultsRow(db, op, was);
    }
  }

  lemma SameDefaultsRow(db: Db, op: Op, was: Member)
    requires Consistent(db) && op.EditDefaults? && op.community in db.communities
    requires db.communities[op.community].defaults == op.bits
    requires was in db.members && was.communityId == op.community
    ensures RightAfter(db, op, was)
  {
    RowCorrectIff(db, op, was);
  }

  // ---------------------------------------------------------------- joining as the statements are written

  /** The count of bans has one placeholder and two arguments, and the insert leaves out a column that has no default:
      as written both fail, so joining changes nothing and is always safe. A sign-in with a code fails on the same
      count. */
  lemma JoinAsWrittenDoesNothing(db: Db, user: nat, c: nat)
    ensures Step(db, Join(user, c, CheckFailed)) == db && Safe(db, Join(user, c, CheckFailed))
    ensures Step(db, JoinByCode(user, c, CheckFailed)) == db && Safe(db, JoinByCode(user, c, CheckFailed))
  {
  }

  /** With both statements repaired a join keeps the rows right exactly when nothing lifts the user above the
      defaults. */
  lemma JoinCorrect(db: Db, user: nat, c: nat)
    requires Consistent(db) && Correct(db) && c in db.communities
    ensures Correct(Step(db, Join(user, c, NotBanned)))
       <==> db.communities[c].defaults == Derived(db.communities[c], db.roles, db.assignments, user)
  {
    StepCorrectIffSafe(db, Join(user, c, NotBanned));
    DefaultsSuffice(db, user, c);
  }

  // ---------------------------------------------------------------- the unsafe calls, on a small database

  const OWNER_ROW := Member(1, 1, 0, OWNER_BITS)
  const MEMBER_ROW := Member(2, 1, 0, DEFAULT_BITS)
  const QUIET_ROLE := Role(1, 1, "quiet", false, 0, NO_BITS)

  /** One community, its owner, one plain member, and a role nobody holds. */
  const SMALL_DB := Db(map[1 := Community(1, 1, DEFAULT_BITS)], [QUIET_ROLE], [], [OWNER_ROW, MEMBER_ROW], 2, 2)

  lemma SmallDbFine()
    ensures Consistent(SMALL_DB) && Correct(SMALL_DB)
  {
    assert RowOf(SMALL_DB.members[0], 1, 1);
    assert IsMember(SMALL_DB.members, 1, 1);
    NoRoleNoGrant(SMALL_DB.communities[1], SMALL_DB.roles, SMALL_DB.assignments, 1);
    NoRoleNoGrant(SMALL_DB.communities[1], SMALL_DB.roles, SMALL_DB.assignments, 2);
  }

  /** A member picked into an edited role who held no role before keeps the old row. */
  lemma EditRoleCanLeaveMemberShort()
    ensures !Correct(Step(SMALL_DB, EditRole(1, 1, "mods", true, OWNER_BITS, [2])))
  {
    var op := EditRole(1, 1, "mods", true, OWNER_BITS, [2]);
    SmallDbFine();
    assert SMALL_DB.roles[0] == QUIET_ROLE && HasRole(SMALL_DB.roles, 1, 1);
    assert SMALL_DB.members[1] == MEMBER_ROW && MEMBER_ROW in SMALL_DB.members;
    assert Has(OWNER_BITS, BanMembers) && !Has(DEFAULT_BITS, BanMembers);
    assert !RowSafe(SMALL_DB, op, MEMBER_ROW);
    StepCorrectIffSafe(SMALL_DB, op);
  }

  /** Taking a default away leaves every plain member's row with the old defaults. */
  lemma EditDefaultsCanLeaveMembersStale()
    ensures !Correct(Step(SMALL_DB, EditDefaults(1, NO_BITS)))
  {
    var op := EditDefaults(1, NO_BITS);
    SmallDbFine();
    assert SMALL_DB.members[1] == MEMBER_ROW && MEMBER_ROW in SMALL_DB.members;
    assert Has(NO_BITS, SendMessages) != Has(DEFAULT_BITS, SendMessages);
    assert !RoleGrants(SMALL_DB.roles, SMALL_DB.assignments, 1, 2, SendMessages);
    assert !RowSafe(SMALL_DB, op, MEMBER_ROW);
    StepCorrectIffSafe(SMALL_DB, op);
  }

  /** With both statements repaired, an owner who joins again would get a second row with only the defaults. */
  lemma JoinCanDuplicateOwner()
    ensures !Correct(Step(SMALL_DB, Join(1, 1, NotBanned)))
  {
    SmallDbFine();
    StepCorrectIffSafe(SMALL_DB, Join(1, 1, NotBanned));
  }

  /** A role edit that stops after its first transaction leaves every holder whose bits it was to change. */
  lemma HalfEditCanLeaveHoldersStale()
    ensures var held := SMALL_DB.(assignments := [Assignment(1, 2, 1)]);
            Consistent(held) && Correct(held) && !Correct(Step(held, EditRoleHalf(1, 1, "mods", true, OWNER_BITS)))
  {
    var held := SMALL_DB.(assignments := [Assignment(1, 2, 1)]);
    var op := EditRoleHalf(1, 1, "mods", true, OWNER_BITS);
    assert held.members[0] == OWNER_ROW && held.members[1] == MEMBER_ROW && held.roles[0] == QUIET_ROLE;
    assert RowOf(OWNER_ROW, 1, 1) && RowOf(MEMBER_ROW, 2, 1) && IsMember(held.members, 1, 1)
      && IsMember(held.members, 2, 1);
    assert HasRole(held.roles, 1, 1);
    forall p ensures Has(DEFAULT_BITS, p) <==> Entitled(held.communities[1], held.roles, held.assignments, 2, p) {}
    DerivedIs(held.communities[1], held.roles, held.assignments, 2, DEFAULT_BITS);
    NoRoleNoGrant(held.communities[1], held.roles, held.assignments, 1);
    assert Has(OWNER_BITS, BanMembers) != Has(QUIET_ROLE.bits, BanMembers) && !Has(DEFAULT_BITS, BanMembers);
    assert !GrantedOtherwise(held, held.communities[1], 1, 2, BanMembers);
    assert !RowSafe(held, op, MEMBER_ROW);
    StepCorrectIffSafe(held, op);
  }

  /** With both statements repaired, someone who is not yet a member could always join safely. */
  lemma FirstJoinSafe(db: Db, user: nat, c: nat, check: BanCheck)
    requires Consistent(db) && !IsMember(db.members, user, c)
    ensures Safe(db, Join(user, c, check))
  {
  }

  /** An edit that only picks current role holders of the community is always safe. */
  lemma EditRoleAmongHoldersSafe(db: Db, op: Op)
    requires op.EditRole? && forall u :: u in op.picks ==> HoldsSome(db, u, op.community)
    ensures Safe(db, op)
  {
  }
}
