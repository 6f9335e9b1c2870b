/** The read-through permission cache, event by event: what its entries can hold in any interleaving, and when its
    answers are those of a direct row lookup. */
module Cache {
  import opened ByteText
  import opened Tables
  import opened Permissions

  /** A question that missed the cache and has not read the row yet. */
  datatype Question = Question(user: nat, community: nat)

  /** A cache write started by a miss and not yet arrived. */
  datatype Fill = Fill(key: Bytes, row: Member)

  datatype World = World(db: Db, cache: map<Bytes, Member>, pending: seq<Fill>, asking: seq<Question>)

  /** Index of the first row of a user in a community, or the length of the table. */
  function FirstRow(members: seq<Member>, user: nat, community: nat): (i: nat)
    ensures i <= |members|
    ensures i < |members| ==> RowOf(members[i], user, community)
    ensures forall j :: 0 <= j < i ==> !RowOf(members[j], user, community)
  {
    if members == [] || RowOf(members[0], user, community) then 0 else 1 + FirstRow(members[1..], user, community)
  }

  /** The row a direct query returns. */
  function Lookup(members: seq<Member>, user: nat, community: nat): Option<Member> {
    var i := FirstRow(members, user, community);
    if i < |members| then Some(members[i]) else None
  }

  /** What a direct query would answer. */
  predicate Direct(members: seq<Member>, user: nat, community: nat, p: Permission) {
    var row := Lookup(members, user, community);
    row.Some? && Has(row.value.bits, p)
  }

  // ---------------------------------------------------------------- events

  /** A question reads the cache and, on a miss, the row; the write it starts arrives later. A handler deletes entries
      one after the other inside its transaction and commits at the end. */
  datatype Event =
    | Ask(user: nat, community: nat)
    | Read(index: nat)
    | Land(index: nat)
    | Expire(key: Bytes)
    | Drop(users: set<nat>, community: nat)
    | Commit(db: Db)

  /** The answer to a question put now whose row, on a miss, is read now. */
  predicate AskAnswer(w: World, user: nat, community: nat, p: Permission) {
    var key := PermissionRedisKey(user, community);
    if key in w.cache then Has(w.cache[key].bits, p) else Direct(w.db.members, user, community, p)
  }

  function Filled(w: World, user: nat, community: nat): World {
    var row := Lookup(w.db.members, user, community);
    if row.None? then w else w.(pending := w.pending + [Fill(PermissionRedisKey(user, community), row.value)])
  }

  function Landed(w: World, i: nat): World {
    if i >= |w.pending| then w
    else w.(cache := w.cache[w.pending[i].key := w.pending[i].row], pending := RemoveAt(w.pending, i))
  }

  function Next(w: World, e: Event): World {
    match e
    case Ask(user, community) =>
      if PermissionRedisKey(user, community) in w.cache then w
      else w.(asking := w.asking + [Question(user, community)])
    case Read(i) =>
      if i >= |w.asking| then w
      else Filled(w, w.asking[i].user, w.asking[i].community).(asking := RemoveAt(w.asking, i))
    case Land(i) => Landed(w, i)
    case Expire(key) => w.(cache := w.cache - {key})
    case Drop(users, community) => w.(cache := w.cache - Keys(users, community))
    case Commit(db) => w.(db := db)
  }

  /** A question whose two reads nothing comes between. */
  function Asked(w: World, user: nat, community: nat): World {
    if PermissionRedisKey(user, community) in w.cache then w else Filled(w, user, community)
  }

  lemma AskThenRead(w: World, user: nat, community: nat)
    requires PermissionRedisKey(user, community) !in w.cache
    ensures Next(Next(w, Ask(user, community)), Read(|w.asking|)) == Asked(w, user, community)
  {
    assert RemoveAt(w.asking + [Question(user, community)], |w.asking|) == w.asking;
  }

  function Keys(users: set<nat>, community: nat): set<Bytes> {
    set u | u in users :: PermissionRedisKey(u, community)
  }

  function UsersOf(rows: seq<Member>): set<nat> {
    set m | m in rows :: m.userId
  }

  function UserSet(users: seq<nat>): set<nat> {
    set u | u in users
  }

  /** The users whose entries a handler deletes. */
  function Dropped(db: Db, op: Op): set<nat> {
    match op
    case JoinByCode(user, c, check) => if c in db.communities && check == NotBanned then {user} else {}
    case CreateRole(c, _, _, _, picks) =>
      if c in db.communities then UsersOf(MembersAmong(db.members, c, picks)) else {}
    case EditRole(c, role, _, _, _, _) => HoldersIf(db, c, c in db.communities && HasRole(db.roles, role, c))
    case DeleteRole(c, role) => HoldersIf(db, c, c in db.communities && HasRole(db.roles, role, c))
    case EditDefaults(c, _) => if c in db.communities then UserSet(MemberIds(db.members, c)) else {}
    case _ => {}
  }

  function HoldersIf(db: Db, c: nat, found: bool): set<nat> {
    if found then UserSet(UserIds(AssignmentsOf(db.assignments, c))) else {}
  }

  function CommunityOf(op: Op): nat {
    if op.NewCommunity? then 0 else op.community
  }

  /** A handler that nothing comes between: its deletions and its commit. */
  ghost function Handled(w: World, op: Op): World {
    w.(db := Step(w.db, op), cache := w.cache - Keys(Dropped(w.db, op), CommunityOf(op)))
  }

  // ---------------------------------------------------------------- every interleaving

  /** Some committed database had this row for this key. */
  ghost predicate WasCommitted(history: seq<Db>, key: Bytes, row: Member) {
    exists v, u, c :: v in history && key == PermissionRedisKey(u, c) && Lookup(v.members, u, c) == Some(row)
  }

  ghost predicate FromHistory(w: World, history: seq<Db>) {
    && (forall key :: key in w.cache ==> WasCommitted(history, key, w.cache[key]))
    && (forall f :: f in w.pending ==> WasCommitted(history, f.key, f.row))
  }

  ghost function RunEvents(w: World, events: seq<Event>): World {
    if events == [] then w else Next(RunEvents(w, events[..|events| - 1]), events[|events| - 1])
  }

  /** The databases committed along a run, oldest first. */
  ghost function History(w: World, events: seq<Event>): seq<Db> {
    if events == [] then [w.db] else History(w, events[..|events| - 1]) + [RunEvents(w, events).db]
  }

  lemma HistoryLonger(w: World, history: seq<Db>, db: Db)
    requires FromHistory(w, history)
    ensures FromHistory(w, history + [db])
  {
  }

  lemma ReadFromHistory(w: World, i: nat, history: seq<Db>)
    requires FromHistory(w, history) && w.db in history && i < |w.asking|
    ensures FromHistory(Next(w, Read(i)), history)
  {
    var q, w' := w.asking[i], Next(w, Read(i));
    forall f | f in w'.pending ensures WasCommitted(history, f.key, f.row) {
      assert f !in w.pending ==> Lookup(w.db.members, q.user, q.community) == Some(f.row);
    }
  }

  lemma LandedFromHistory(w: World, i: nat, history: seq<Db>)
    requires FromHistory(w, history)
    ensures FromHistory(Landed(w, i), history)
  {
    if i < |w.pending| {
      assert w.pending[i] in w.pending;
      forall f | f in RemoveAt(w.pending, i) ensures f in w.pending {
        var j :| 0 <= j < |RemoveAt(w.pending, i)| && RemoveAt(w.pending, i)[j] == f;
        assert w.pending[if j < i then j else j + 1] == f;
      }
    }
  }

  lemma ShrunkFromHistory(w: World, w': World, history: seq<Db>)
    requires FromHistory(w, history) && w'.pending == w.pending
    requires forall key :: key in w'.cache ==> key in w.cache && w'.cache[key] == w.cache[key]
    ensures FromHistory(w', history)
  {
  }

  lemma NextFromHistory(w: World, e: Event, history: seq<Db>)
    requires FromHistory(w, history) && w.db in history
    ensures FromHistory(Next(w, e), history + [Next(w, e).db])
  {
    match e
    case Read(i) => if i < |w.asking| { ReadFromHistory(w, i, history); }
    case Land(i) => LandedFromHistory(w, i, history);
    case _ => ShrunkFromHistory(w, Next(w, e), history);
    HistoryLonger(Next(w, e), history, Next(w, e).db);
  }

  /** In every interleaving of questions, late cache writes, deletions, expiries and commits, a cached row is one that
      some committed database really held for exactly that user and community. */
  lemma {:induction false} CachedRowsWereCommitted(db: Db, events: seq<Event>)
    ensures var w := World(db, map[], [], []);
            FromHistory(RunEvents(w, events), History(w, events)) && RunEvents(w, events).db in History(w, events)
  {
    var w := World(db, map[], [], []);
    if events != [] {
      var init := events[..|events| - 1];
      CachedRowsWereCommitted(db, init);
      NextFromHistory(RunEvents(w, init), events[|events| - 1], History(w, init));
      var h := History(w, events);
      assert h[|h| - 1] == RunEvents(w, events).db;
    }
  }

  /** A cached entry speaks about the user and community it is asked for, not about another pair with the same key. */
  lemma CachedRowIsTheirs(w: World, history: seq<Db>, user: nat, community: nat)
    requires FromHistory(w, history) && PermissionRedisKey(user, community) in w.cache
    ensures exists v :: v in history
              && Lookup(v.members, user, community) == Some(w.cache[PermissionRedisKey(user, community)])
    ensures RowOf(w.cache[PermissionRedisKey(user, community)], user, community)
  {
    var key := PermissionRedisKey(user, community);
    var v, u, c :| v in history && key == PermissionRedisKey(u, c) && Lookup(v.members, u, c) == Some(w.cache[key]);
    PermissionRedisKeyInjective(u, c, user, community);
  }

  // ---------------------------------------------------------------- coherence

  /** The row answers every permission as a direct query does now. */
  ghost predicate Current(members: seq<Member>, user: nat, community: nat, row: Member) {
    forall p :: Has(row.bits, p) <==> Direct(members, user, community, p)
  }

  ghost predicate CacheCurrent(w: World) {
    forall u, c :: PermissionRedisKey(u, c) in w.cache
      ==> Current(w.db.members, u, c, w.cache[PermissionRedisKey(u, c)])
  }

  ghost predicate FillsCurrent(w: World) {
    forall i, u, c :: 0 <= i < |w.pending| && w.pending[i].key == PermissionRedisKey(u, c)
                      ==> Current(w.db.members, u, c, w.pending[i].row)
  }

  ghost predicate Coherent(w: World) {
    CacheCurrent(w) && FillsCurrent(w)
  }

  lemma AnswerIsDirect(w: World, user: nat, community: nat, p: Permission)
    requires Coherent(w)
    ensures AskAnswer(w, user, community, p) == Direct(w.db.members, user, community, p)
  {
  }

  lemma ReadCoherent(w: World, i: nat)
    requires Coherent(w) && i < |w.asking|
    ensures Coherent(Next(w, Read(i)))
  {
    var q, w' := w.asking[i], Next(w, Read(i));
    forall j, u, c | 0 <= j < |w'.pending| && w'.pending[j].key == PermissionRedisKey(u, c)
      ensures Current(w'.db.members, u, c, w'.pending[j].row)
    {
      if j == |w.pending| { PermissionRedisKeyInjective(u, c, q.user, q.community); }
    }
  }

  lemma LandCoherent(w: World, n: nat)
    requires Coherent(w) && n < |w.pending|
    ensures Coherent(Landed(w, n))
  {
    var w' := Landed(w, n);
    forall u, c | PermissionRedisKey(u, c) in w'.cache
      ensures Current(w'.db.members, u, c, w'.cache[PermissionRedisKey(u, c)])
    {
      if PermissionRedisKey(u, c) == w.pending[n].key { assert Current(w.db.members, u, c, w.pending[n].row); }
    }
  }

  /** Questions, arriving writes, expiries and deletions keep a current cache current. */
  lemma QuietEventCoherent(w: World, e: Event)
    requires Coherent(w) && !e.Commit?
    ensures Coherent(Next(w, e)) && Next(w, e).db == w.db
  {
    match e
    case Read(i) => if i < |w.asking| { ReadCoherent(w, i); }
    case Land(n) => if n < |w.pending| { LandCoherent(w, n); }
    case _ =>
  }

  ghost predicate Quiet(events: seq<Event>) {
    forall e :: e in events ==> !e.Commit?
  }

  lemma {:induction false} QuietRunCoherent(w: World, events: seq<Event>)
    requires Coherent(w) && Quiet(events)
    ensures Coherent(RunEvents(w, events)) && RunEvents(w, events).db == w.db
  {
    if events != [] {
      QuietRunCoherent(w, events[..|events| - 1]);
      QuietEventCoherent(RunEvents(w, events[..|events| - 1]), events[|events| - 1]);
    }
  }

  /** Whatever happens before the next commit, every question is answered as a direct lookup would. */
  ghost predicate AlwaysDirect(w: World) {
    forall events, u, c, p :: Quiet(events)
      ==> AskAnswer(RunEvents(w, events), u, c, p) == Direct(w.db.members, u, c, p)
  }

  /** Coherence is exactly what that takes: one outdated entry, or one outdated write that may still arrive, is enough
      to make some later answer wrong. */
  lemma CoherentIffAlwaysDirect(w: World)
    ensures Coherent(w) <==> AlwaysDirect(w)
  {
    if Coherent(w) {
      forall events, u, c, p | Quiet(events)
        ensures AskAnswer(RunEvents(w, events), u, c, p) == Direct(w.db.members, u, c, p)
      {
        QuietRunCoherent(w, events);
        AnswerIsDirect(RunEvents(w, events), u, c, p);
      }
    }
    if AlwaysDirect(w) {
      forall u, c | PermissionRedisKey(u, c) in w.cache
        ensures Current(w.db.members, u, c, w.cache[PermissionRedisKey(u, c)])
      {
        forall p ensures Has(w.cache[PermissionRedisKey(u, c)].bits, p) <==> Direct(w.db.members, u, c, p) {
          assert Quiet([]) && AskAnswer(RunEvents(w, []), u, c, p) == Direct(w.db.members, u, c, p);
        }
      }
      forall i, u, c | 0 <= i < |w.pending| && w.pending[i].key == PermissionRedisKey(u, c)
        ensures Current(w.db.members, u, c, w.pending[i].row)
      {
        forall p ensures Has(w.pending[i].row.bits, p) <==> Direct(w.db.members, u, c, p) {
          LandNow(w, i);
          assert Quiet([Land(i)]) && AskAnswer(RunEvents(w, [Land(i)]), u, c, p) == Direct(w.db.members, u, c, p);
        }
      }
    }
  }

  lemma LandNow(w: World, i: nat)
    ensures RunEvents(w, [Land(i)]) == Landed(w, i)
  {
    assert [Land(i)][..0] == [];
  }

  // ---------------------------------------------------------------- a commit

  /** Some answer about this user differs. */
  ghost predicate Changed(db: Db, db': Db, user: nat, community: nat) {
    exists p :: Direct(db.members, user, community, p) != Direct(db'.members, user, community, p)
  }

  predicate UnderWay(w: World, user: nat, community: nat) {
    exists f :: f in w.pending && f.key == PermissionRedisKey(user, community)
  }

  predicate Held(w: World, user: nat, community: nat) {
    PermissionRedisKey(user, community) in w.cache || UnderWay(w, user, community)
  }

  /** No user whose answers the commit changes has an entry or a write under way. */
  ghost predicate Undisturbed(w: World, db': Db) {
    forall u, c :: Changed(w.db, db', u, c) ==> !Held(w, u, c)
  }

  lemma CurrentStays(db: Db, db': Db, u: nat, c: nat, row: Member)
    requires Current(db.members, u, c, row)
    ensures Current(db'.members, u, c, row) <==> !Changed(db, db', u, c)
  {
  }

  /** A commit keeps the cache current if and only if it changes nobody who has an entry or a write under way. */
  lemma CommitCoherentIff(w: World, db': Db)
    requires Coherent(w)
    ensures Coherent(Next(w, Commit(db'))) <==> Undisturbed(w, db')
  {
    var w' := Next(w, Commit(db'));
    forall u, c | PermissionRedisKey(u, c) in w.cache
      ensures Current(db'.members, u, c, w.cache[PermissionRedisKey(u, c)]) <==> !Changed(w.db, db', u, c)
    {
      CurrentStays(w.db, db', u, c, w.cache[PermissionRedisKey(u, c)]);
    }
    forall i, u, c | 0 <= i < |w.pending| && w.pending[i].key == PermissionRedisKey(u, c)
      ensures Current(db'.members, u, c, w.pending[i].row) <==> !Changed(w.db, db', u, c)
    {
      CurrentStays(w.db, db', u, c, w.pending[i].row);
    }
    if Coherent(w') {
      forall u, c | Changed(w.db, db', u, c) ensures !Held(w, u, c) {}
    }
    if Undisturbed(w, db') {
      forall i, u, c | 0 <= i < |w.pending| && w.pending[i].key == PermissionRedisKey(u, c)
        ensures Current(db'.members, u, c, w.pending[i].row)
      {
        assert w.pending[i] in w.pending && Held(w, u, c);
      }
    }
  }

  /** What an expiry, a handler's deletions, a question and the arrival of a write do. */
  lemma EventsDo(w: World, user: nat, community: nat, i: nat, users: set<nat>, u: nat, c: nat)
    ensures var key, next := PermissionRedisKey(user, community), Next(w, Expire(PermissionRedisKey(user, community)));
            next == w.(cache := w.cache - {key})
    ensures var key := PermissionRedisKey(u, c);
            && (key in Next(w, Drop(users, community)).cache <==> key in w.cache && !(u in users && c == community))
            && (key in Next(w, Drop(users, community)).cache
                ==> Next(w, Drop(users, community)).cache[key] == w.cache[key])
    ensures Next(w, Ask(user, community))
         == if PermissionRedisKey(user, community) in w.cache then w
            else w.(asking := w.asking + [Question(user, community)])
    ensures i < |w.pending| ==>
              Next(w, Land(i)) == w.(cache := w.cache[w.pending[i].key := w.pending[i].row],
                                     pending := w.pending[..i] + w.pending[i + 1..])
  {
    DropTakes(w, users, community, u, c);
  }

  /** A question's read takes it off the waiting ones. A user without a row in the community starts no write; otherwise
      the row that is written is the first of the user's rows, here the j-th of the table. */
  lemma ReadDoes(w: World, i: nat, j: nat)
    requires i < |w.asking|
    ensures var next := Next(w, Read(i));
            next.db == w.db && next.cache == w.cache && next.asking == w.asking[..i] + w.asking[i + 1..]
    ensures (forall m :: m in w.db.members ==>
               !(m.userId == w.asking[i].user && m.communityId == w.asking[i].community))
            ==> Next(w, Read(i)).pending == w.pending
    ensures && j < |w.db.members|
            && w.db.members[j].userId == w.asking[i].user && w.db.members[j].communityId == w.asking[i].community
            && (forall k :: 0 <= k < j ==>
                  !(w.db.members[k].userId == w.asking[i].user && w.db.members[k].communityId == w.asking[i].community))
            ==> Next(w, Read(i)).pending
                == w.pending + [Fill(PermissionRedisKey(w.asking[i].user, w.asking[i].community), w.db.members[j])]
  {
    FirstRowIs(w.db.members, w.asking[i].user, w.asking[i].community);
  }

  lemma DropTakes(w: World, users: set<nat>, community: nat, u: nat, c: nat)
    ensures PermissionRedisKey(u, c) in Keys(users, community) <==> u in users && c == community
  {
    if PermissionRedisKey(u, c) in Keys(users, community) {
      var v :| v in users && PermissionRedisKey(v, community) == PermissionRedisKey(u, c);
      PermissionRedisKeyInjective(v, community, u, c);
    }
  }

  lemma FirstRowIs(members: seq<Member>, user: nat, community: nat)
    ensures (forall m :: m in members ==> !RowOf(m, user, community))
        ==> FirstRow(members, user, community) == |members|
    ensures forall j :: 0 <= j < |members| && RowOf(members[j], user, community)
                        && (forall k :: 0 <= k < j ==> !RowOf(members[k], user, community))
                        ==> FirstRow(members, user, community) == j
  {
  }

  /** Whose entries a handler deletes: on a join by code the user's, on a new role the picked members', on an edit or a
      deletion of a role those of everyone who held some role, on new defaults every member's. */
  lemma DroppedAre(db: Db, op: Op, u: nat)
    ensures u in Dropped(db, op) <==>
              && (op.JoinByCode? || op.CreateRole? || op.EditRole? || op.DeleteRole? || op.EditDefaults?)
              && op.community in db.communities
              && (op.JoinByCode? ==> op.check == NotBanned && u == op.user)
              && (op.CreateRole? || op.EditDefaults? ==>
                    exists m :: m in db.members && m.userId == u && m.communityId == op.community)
              && (op.CreateRole? ==> u in op.picks)
              && (op.EditRole? || op.DeleteRole? ==>
                    && (exists r :: r in db.roles && r.id == op.role && r.communityId == op.community)
                    && exists a :: a in db.assignments && a.userId == u && a.communityId == op.community)
  {
    match op
    case CreateRole(c, _, _, _, picks) =>
      if m :| m in db.members && m.userId == u && m.communityId == c && u in picks {
        assert m in MembersAmong(db.members, c, picks);
      }
    case _ =>
  }
}
