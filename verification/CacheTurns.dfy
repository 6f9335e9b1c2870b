/** Handlers and the cache: entries are deleted inside the open transaction and the commit comes later, with questions
    in between. When the cache stays current, and how it does not. */
module CacheTurns {
  import opened ByteText
  import opened Tables
  import opened Permissions
  import opened PermissionRuns
  import opened Cache

  // ---------------------------------------------------------------- what a handler deletes

  lemma LookupSameKeys(members: seq<Member>, members': seq<Member>, user: nat, community: nat)
    requires |members| <= |members'|
    requires forall i :: 0 <= i < |members| ==> RowOf(members'[i], members[i].userId, members[i].communityId)
    requires Lookup(members, user, community).Some?
    ensures FirstRow(members', user, community) == FirstRow(members, user, community)
  {
  }

  lemma KeysKeptInPlace(db: Db, op: Op)
    requires !(op.DeleteCommunity? && Applies(db, op))
    ensures |db.members| <= |Step(db, op).members|
    ensures forall j :: 0 <= j < |db.members| ==>
              RowOf(Step(db, op).members[j], db.members[j].userId, db.members[j].communityId)
  {
  }

  /** A handler that rewrites a member's row deletes that member's entry. */
  lemma RowKept(db: Db, op: Op, i: nat)
    requires Consistent(db) && !(op.DeleteCommunity? && Applies(db, op))
    requires i < |db.members| && i < |Step(db, op).members|
    ensures (db.members[i].userId in Dropped(db, op) && db.members[i].communityId == CommunityOf(op))
            || Step(db, op).members[i].bits == db.members[i].bits
  {
    var m := db.members[i];
    assert m in db.members;
    match op
    case CreateRole(c, _, _, _, picks) =>
      if c in db.communities && m.communityId == c && m.userId in picks {
        assert m in MembersAmong(db.members, c, picks);
      }
    case _ =>
  }

  lemma {:induction false} LookupOutside(members: seq<Member>, c: nat, user: nat, k: nat)
    ensures Lookup(MembersOutside(members, c), user, k) == if k == c then None else Lookup(members, user, k)
  {
    if members != [] {
      LookupOutside(members[1..], c, user, k);
      OutsideStep(members, c);
    }
  }

  lemma OutsideStep(members: seq<Member>, c: nat)
    requires members != []
    ensures MembersOutside(members, c)
         == (if members[0].communityId != c then [members[0]] else []) + MembersOutside(members[1..], c)
  {
  }

  /** Deleting a community takes away every member's row, and only those; any other handler keeps every row. */
  lemma LookupSurvivesIff(db: Db, op: Op, user: nat, community: nat)
    requires Lookup(db.members, user, community).Some?
    ensures Lookup(Step(db, op).members, user, community).Some?
       <==> !(op.DeleteCommunity? && Applies(db, op) && op.community == community)
  {
    if op.DeleteCommunity? && Applies(db, op) {
      LookupOutside(db.members, op.community, user, community);
    } else {
      KeysKeptInPlace(db, op);
      LookupSameKeys(db.members, Step(db, op).members, user, community);
    }
  }

  /** Apart from deleting the community, a handler deletes the entry of every member whose answers it changes. */
  lemma HandlerDropsWhatItChanges(db: Db, op: Op, user: nat, community: nat)
    requires Consistent(db) && Lookup(db.members, user, community).Some? && Changed(db, Step(db, op), user, community)
    requires !(op.DeleteCommunity? && Applies(db, op) && op.community == community)
    ensures user in Dropped(db, op) && community == CommunityOf(op)
  {
    if op.DeleteCommunity? && Applies(db, op) {
      LookupOutside(db.members, op.community, user, community);
    } else {
      KeysKeptInPlace(db, op);
      LookupSameKeys(db.members, Step(db, op).members, user, community);
      RowKept(db, op, FirstRow(db.members, user, community));
    }
  }

  /** Deleting a community changes the answers of exactly those who could do something in it. */
  lemma DeleteCommunityChanges(db: Db, owner: nat, community: nat, u: nat, c: nat)
    requires Erases(db, owner, community)
    ensures Changed(db, Step(db, DeleteCommunity(owner, community)), u, c)
       <==> c == community && exists p :: Direct(db.members, u, c, p)
  {
    LookupOutside(db.members, community, u, c);
  }

  // ---------------------------------------------------------------- turns

  /** A handler's own deletions are part of its window: everything that happens while its transaction is open. */
  datatype Turn = Between(event: Event) | Handler(op: Op, window: seq<Event>)

  ghost predicate CalmTurn(t: Turn) {
    match t
    case Between(e) => !e.Commit?
    case Handler(_, window) => Quiet(window)
  }

  ghost function RunTurn(w: World, t: Turn): World {
    match t
    case Between(e) => Next(w, e)
    case Handler(op, window) => Next(RunEvents(w, window), Commit(Step(w.db, op)))
  }

  /** At the commit nobody whose answers it changes has an entry or a write under way. */
  ghost predicate CleanTurn(w: World, t: Turn) {
    match t
    case Between(_) => true
    case Handler(op, window) => Undisturbed(RunEvents(w, window), Step(w.db, op))
  }

  lemma TurnCoherentIff(w: World, t: Turn)
    requires Coherent(w) && CalmTurn(t)
    ensures Coherent(RunTurn(w, t)) <==> CleanTurn(w, t)
  {
    match t
    case Between(e) => QuietEventCoherent(w, e);
    case Handler(op, window) =>
      QuietRunCoherent(w, window);
      CommitCoherentIff(RunEvents(w, window), Step(w.db, op));
  }

  ghost function RunTurns(w: World, turns: seq<Turn>): World {
    if turns == [] then w else RunTurn(RunTurns(w, turns[..|turns| - 1]), turns[|turns| - 1])
  }

  ghost predicate Calm(turns: seq<Turn>) {
    forall t :: t in turns ==> CalmTurn(t)
  }

  ghost predicate AllClean(w: World, turns: seq<Turn>) {
    turns == [] || (AllClean(w, turns[..|turns| - 1])
                    && CleanTurn(RunTurns(w, turns[..|turns| - 1]), turns[|turns| - 1]))
  }

  /** After every turn all later questions, up to the next commit, are answered as a direct lookup would. */
  ghost predicate DirectThroughout(w: World, turns: seq<Turn>) {
    AlwaysDirect(RunTurns(w, turns)) && (turns == [] || DirectThroughout(w, turns[..|turns| - 1]))
  }

  /** Over every run of handlers and questions, every answer is the one a direct row lookup gives if and only if every
      handler's turn was clean. */
  lemma {:induction false} AnswersAreDirectIffClean(db: Db, turns: seq<Turn>)
    requires Calm(turns)
    ensures DirectThroughout(World(db, map[], [], []), turns) <==> AllClean(World(db, map[], [], []), turns)
  {
    var w := World(db, map[], [], []);
    CoherentIffAlwaysDirect(RunTurns(w, turns));
    if turns != [] {
      var init, last := turns[..|turns| - 1], turns[|turns| - 1];
      AnswersAreDirectIffClean(db, init);
      CoherentIffAlwaysDirect(RunTurns(w, init));
      if Coherent(RunTurns(w, init)) { TurnCoherentIff(RunTurns(w, init), last); }
    }
  }

  lemma HandledIsTurn(w: World, op: Op)
    ensures RunTurn(w, Handler(op, [Drop(Dropped(w.db, op), CommunityOf(op))])) == Handled(w, op)
  {
    RunNext(w, [], Drop(Dropped(w.db, op), CommunityOf(op)));
    assert [] + [Drop(Dropped(w.db, op), CommunityOf(op))] == [Drop(Dropped(w.db, op), CommunityOf(op))];
  }

  // ---------------------------------------------------------------- what makes a turn clean

  /** The row of this user was read for a question during these events. */
  ghost predicate Answered(w: World, events: seq<Event>, user: nat, community: nat) {
    events != []
    && (Answered(w, events[..|events| - 1], user, community)
        || Reads(RunEvents(w, events[..|events| - 1]), events[|events| - 1], user, community))
  }

  predicate Reads(w: World, e: Event, user: nat, community: nat) {
    e.Read? && e.index < |w.asking| && w.asking[e.index] == Question(user, community)
  }

  predicate Drops(e: Event, user: nat, community: nat) {
    e.Drop? && e.community == community && user in e.users
  }

  ghost predicate DroppedIn(events: seq<Event>, user: nat, community: nat) {
    exists e :: e in events && Drops(e, user, community)
  }

  lemma ReadHolds(w: World, i: nat, user: nat, community: nat)
    requires i < |w.asking|
    ensures Held(Next(w, Read(i)), user, community)
       <==> Held(w, user, community)
            || (w.asking[i] == Question(user, community) && Lookup(w.db.members, user, community).Some?)
  {
    var q, w' := w.asking[i], Next(w, Read(i));
    if PermissionRedisKey(q.user, q.community) == PermissionRedisKey(user, community) {
      PermissionRedisKeyInjective(q.user, q.community, user, community);
    }
    if Lookup(w.db.members, q.user, q.community).Some? {
      assert w'.pending[|w.pending|] in w'.pending;
      assert forall f :: f in w'.pending <==> f in w.pending || f == w'.pending[|w.pending|];
    }
  }

  lemma LandHolds(w: World, i: nat, user: nat, community: nat)
    requires i < |w.pending|
    ensures Held(Landed(w, i), user, community) <==> Held(w, user, community)
  {
    var rest := RemoveAt(w.pending, i);
    assert w.pending[i] in w.pending;
    forall f | f in rest ensures f in w.pending {
      var j :| 0 <= j < |rest| && rest[j] == f;
      assert w.pending[if j < i then j else j + 1] == f;
    }
    forall f | f in w.pending && f != w.pending[i] ensures f in rest {
      var j :| 0 <= j < |w.pending| && w.pending[j] == f;
      assert rest[if j < i then j else j - 1] == f;
    }
  }

  /** Questions and arriving writes alone. */
  ghost predicate Questions(events: seq<Event>) {
    forall e :: e in events ==> e.Ask? || e.Read? || e.Land?
  }

  lemma {:induction false} HeldAfterQuestions(w: World, events: seq<Event>, user: nat, community: nat)
    requires Questions(events)
    ensures RunEvents(w, events).db == w.db
    ensures Held(RunEvents(w, events), user, community)
       <==> Held(w, user, community)
            || (Answered(w, events, user, community) && Lookup(w.db.members, user, community).Some?)
  {
    if events != [] {
      var init, e := events[..|events| - 1], events[|events| - 1];
      HeldAfterQuestions(w, init, user, community);
      var before := RunEvents(w, init);
      assert e in events;
      match e
      case Ask(_, _) =>
      case Read(i) => if i < |before.asking| { ReadHolds(before, i, user, community); }
      case Land(i) => if i < |before.pending| { LandHolds(before, i, user, community); }
    }
  }

  lemma ReadNotUnderWay(w: World, i: nat, user: nat, community: nat)
    requires i < |w.asking| && w.asking[i] != Question(user, community) && !UnderWay(w, user, community)
    ensures !UnderWay(Next(w, Read(i)), user, community)
  {
    var q := w.asking[i];
    if PermissionRedisKey(q.user, q.community) == PermissionRedisKey(user, community) {
      PermissionRedisKeyInjective(q.user, q.community, user, community);
    }
  }

  lemma LandNotUnderWay(w: World, i: nat, user: nat, community: nat)
    requires i < |w.pending| && !UnderWay(w, user, community)
    ensures !UnderWay(Landed(w, i), user, community)
    ensures PermissionRedisKey(user, community) in Landed(w, i).cache
       <==> PermissionRedisKey(user, community) in w.cache
  {
    assert w.pending[i] in w.pending;
    forall f | f in RemoveAt(w.pending, i) ensures f in w.pending {
      var j :| 0 <= j < |RemoveAt(w.pending, i)| && RemoveAt(w.pending, i)[j] == f;
      assert w.pending[if j < i then j else j + 1] == f;
    }
  }

  lemma EventHolds(w: World, e: Event, user: nat, community: nat)
    requires !e.Commit? && !UnderWay(w, user, community) && !Reads(w, e, user, community)
    ensures !UnderWay(Next(w, e), user, community) && Next(w, e).db == w.db
    ensures PermissionRedisKey(user, community) in Next(w, e).cache
        ==> PermissionRedisKey(user, community) in w.cache && !Drops(e, user, community)
  {
    match e
    case Read(i) => if i < |w.asking| { ReadNotUnderWay(w, i, user, community); }
    case Land(i) => if i < |w.pending| { LandNotUnderWay(w, i, user, community); }
    case Drop(users, c) =>
      if Drops(e, user, community) { assert PermissionRedisKey(user, community) in Keys(users, c); }
    case _ =>
  }

  lemma DroppedInInit(events: seq<Event>, user: nat, community: nat)
    requires events != []
    ensures DroppedIn(events, user, community)
       <==> DroppedIn(events[..|events| - 1], user, community) || Drops(events[|events| - 1], user, community)
  {
    assert events == events[..|events| - 1] + [events[|events| - 1]];
  }

  /** What can still hold a user at the end of a window: a write already under way, a row read for a question, or an
      entry that was not deleted. */
  lemma {:induction false} HeldAfterWindow(w: World, events: seq<Event>, user: nat, community: nat)
    requires Quiet(events) && !UnderWay(w, user, community) && !Answered(w, events, user, community)
    ensures !UnderWay(RunEvents(w, events), user, community) && RunEvents(w, events).db == w.db
    ensures PermissionRedisKey(user, community) in RunEvents(w, events).cache
        ==> PermissionRedisKey(user, community) in w.cache && !DroppedIn(events, user, community)
  {
    if events != [] {
      HeldAfterWindow(w, events[..|events| - 1], user, community);
      EventHolds(RunEvents(w, events[..|events| - 1]), events[|events| - 1], user, community);
      DroppedInInit(events, user, community);
    }
  }

  /** Nothing about these users is under way before the turn or read during it, and what they have in the cache is
      deleted. */
  ghost predicate Unasked(w: World, op: Op, window: seq<Event>) {
    forall u, c :: Changed(w.db, Step(w.db, op), u, c) ==>
      && !UnderWay(w, u, c) && !Answered(w, window, u, c)
      && (PermissionRedisKey(u, c) in w.cache ==> DroppedIn(window, u, c))
  }

  /** Any window: deletions one after the other, expiries, other users' questions. */
  lemma UnaskedTurnIsClean(w: World, op: Op, window: seq<Event>)
    requires Quiet(window) && Unasked(w, op, window)
    ensures CleanTurn(w, Handler(op, window))
  {
    QuietRunKeepsTables(w, window);
    forall u, c | Changed(w.db, Step(w.db, op), u, c) ensures !Held(RunEvents(w, window), u, c) {
      HeldAfterWindow(w, window, u, c);
    }
  }

  lemma {:induction false} QuietRunKeepsTables(w: World, events: seq<Event>)
    requires Quiet(events)
    ensures RunEvents(w, events).db == w.db
  {
    if events != [] { QuietRunKeepsTables(w, events[..|events| - 1]); }
  }

  ghost predicate HandlerDeletes(db: Db, op: Op, window: seq<Event>) {
    forall u :: u in Dropped(db, op) ==> DroppedIn(window, u, CommunityOf(op))
  }

  /** Entries and writes under way belong to members, or to communities deleted since. */
  ghost predicate HeldKnown(w: World) {
    forall u: nat, c: nat :: Held(w, u, c) ==>
      Lookup(w.db.members, u, c).Some? || (c !in w.db.communities && c < w.db.nextCommunity)
  }

  /** Someone without a row can only be given one in a community that exists afterwards. */
  lemma ChangedIsKnown(db: Db, op: Op, user: nat, community: nat)
    requires Consistent(db) && Changed(db, Step(db, op), user, community) && Lookup(db.members, user, community).None?
    ensures community in db.communities || community == db.nextCommunity
  {
    ConsistentStep(db, op);
    var p :| Direct(db.members, user, community, p) != Direct(Step(db, op).members, user, community, p);
    assert Lookup(Step(db, op).members, user, community).value in Step(db, op).members;
  }

  lemma HeldAndChangedHasRow(w: World, op: Op, user: nat, community: nat)
    requires Consistent(w.db) && HeldKnown(w) && Held(w, user, community)
    requires Changed(w.db, Step(w.db, op), user, community)
    ensures Lookup(w.db.members, user, community).Some?
  {
    if Lookup(w.db.members, user, community).None? { ChangedIsKnown(w.db, op, user, community); }
  }

  /** Of the handlers, deleting a community apart, that much is asked: no write about a changed user under way before,
      no row of one read during the transaction. The handler's own deletions do the rest. */
  lemma HandlerTurnIsClean(w: World, op: Op, window: seq<Event>)
    requires Consistent(w.db) && HeldKnown(w) && !(op.DeleteCommunity? && Applies(w.db, op))
    requires Quiet(window) && HandlerDeletes(w.db, op, window)
    requires forall u, c :: Changed(w.db, Step(w.db, op), u, c) ==> !UnderWay(w, u, c) && !Answered(w, window, u, c)
    ensures CleanTurn(w, Handler(op, window))
  {
    forall u: nat, c: nat | Changed(w.db, Step(w.db, op), u, c) && PermissionRedisKey(u, c) in w.cache
      ensures DroppedIn(window, u, c)
    {
      HeldAndChangedHasRow(w, op, u, c);
      HandlerDropsWhatItChanges(w.db, op, u, c);
    }
    UnaskedTurnIsClean(w, op, window);
  }

  /** Exactly: when nothing is under way and the deletions come first, the turn is clean if and only if no question
      about a member whose answers the handler changes read the row before the commit. */
  lemma CleanIffUnanswered(w: World, op: Op, questions: seq<Event>)
    requires Consistent(w.db) && HeldKnown(w) && w.pending == [] && !(op.DeleteCommunity? && Applies(w.db, op))
    requires Questions(questions)
    ensures CleanTurn(w, Handler(op, [Drop(Dropped(w.db, op), CommunityOf(op))] + questions))
       <==> forall u, c :: Changed(w.db, Step(w.db, op), u, c) && Lookup(w.db.members, u, c).Some?
                           ==> !Answered(Next(w, Drop(Dropped(w.db, op), CommunityOf(op))), questions, u, c)
  {
    var drop := Drop(Dropped(w.db, op), CommunityOf(op));
    var dropped := Next(w, drop);
    RunAfter(w, drop, questions);
    HeldAfterQuestions(dropped, questions, 0, 0);
    forall u: nat, c: nat | Changed(w.db, Step(w.db, op), u, c)
      ensures Held(RunEvents(dropped, questions), u, c)
         <==> Answered(dropped, questions, u, c) && Lookup(w.db.members, u, c).Some?
    {
      HeldAfterQuestions(dropped, questions, u, c);
      if PermissionRedisKey(u, c) in w.cache {
        HeldAndChangedHasRow(w, op, u, c);
        HandlerDropsWhatItChanges(w.db, op, u, c);
        assert PermissionRedisKey(u, c) in Keys(Dropped(w.db, op), CommunityOf(op));
      }
    }
  }

  lemma {:induction false} RunAfter(w: World, e: Event, events: seq<Event>)
    ensures RunEvents(w, [e] + events) == RunEvents(Next(w, e), events)
  {
    if events == [] {
      assert [e] + events == [e] && [e][..0] == [];
    } else {
      assert ([e] + events)[..|events|] == [e] + events[..|events| - 1];
      RunAfter(w, e, events[..|events| - 1]);
    }
  }

  /** Deleting a community deletes no entry: the turn is clean if and only if nobody who could do something in it has
      one left, or a write under way. */
  lemma DeleteCommunityCleanIff(w: World, owner: nat, community: nat)
    requires Erases(w.db, owner, community)
    ensures Undisturbed(w, Step(w.db, DeleteCommunity(owner, community)))
       <==> forall u, p :: Direct(w.db.members, u, community, p) ==> !Held(w, u, community)
  {
    forall u, c
      ensures Changed(w.db, Step(w.db, DeleteCommunity(owner, community)), u, c)
         <==> c == community && exists p :: Direct(w.db.members, u, c, p)
    {
      DeleteCommunityChanges(w.db, owner, community, u, c);
    }
  }

  // ---------------------------------------------------------------- settled runs

  lemma EventHeldKnown(w: World, e: Event)
    requires HeldKnown(w) && !e.Commit?
    ensures HeldKnown(Next(w, e)) && Next(w, e).db == w.db
  {
    forall u: nat, c: nat | Held(Next(w, e), u, c)
      ensures Lookup(w.db.members, u, c).Some? || (c !in w.db.communities && c < w.db.nextCommunity)
    {
      match e
      case Read(i) => if i < |w.asking| { ReadHolds(w, i, u, c); }
      case Land(i) => if i < |w.pending| { LandHolds(w, i, u, c); }
      case _ =>
    }
  }

  lemma {:induction false} EventsHeldKnown(w: World, events: seq<Event>)
    requires HeldKnown(w) && Quiet(events)
    ensures HeldKnown(RunEvents(w, events)) && RunEvents(w, events).db == w.db
  {
    if events != [] {
      EventsHeldKnown(w, events[..|events| - 1]);
      EventHeldKnown(RunEvents(w, events[..|events| - 1]), events[|events| - 1]);
    }
  }

  lemma CommitHeldKnown(w: World, op: Op)
    requires Consistent(w.db) && HeldKnown(w)
    ensures HeldKnown(Next(w, Commit(Step(w.db, op))))
  {
    var w' := Next(w, Commit(Step(w.db, op)));
    forall u: nat, c: nat | Held(w', u, c)
      ensures Lookup(w'.db.members, u, c).Some? || (c !in w'.db.communities && c < w'.db.nextCommunity)
    {
      assert Held(w, u, c);
      if Lookup(w.db.members, u, c).Some? {
        assert Lookup(w.db.members, u, c).value in w.db.members;
        LookupSurvivesIff(w.db, op, u, c);
      }
    }
  }

  lemma TurnHeldKnown(w: World, t: Turn)
    requires Consistent(w.db) && HeldKnown(w) && CalmTurn(t)
    ensures Consistent(RunTurn(w, t).db) && HeldKnown(RunTurn(w, t))
  {
    match t
    case Between(e) => EventHeldKnown(w, e);
    case Handler(op, window) =>
      EventsHeldKnown(w, window);
      CommitHeldKnown(RunEvents(w, window), op);
      ConsistentStep(w.db, op);
  }

  /** A handler's turn that nobody it concerns got in the way of. */
  ghost predicate SettledTurn(w: World, t: Turn) {
    match t
    case Between(e) => !e.Commit?
    case Handler(op, window) =>
      && Quiet(window)
      && if op.DeleteCommunity? && Applies(w.db, op) then
           forall u, p :: Direct(w.db.members, u, op.community, p) ==> !Held(RunEvents(w, window), u, op.community)
         else
           && HandlerDeletes(w.db, op, window)
           && forall u, c :: Changed(w.db, Step(w.db, op), u, c) ==> !UnderWay(w, u, c) && !Answered(w, window, u, c)
  }

  ghost predicate Settled(w: World, turns: seq<Turn>) {
    turns == [] || (Settled(w, turns[..|turns| - 1])
                    && SettledTurn(RunTurns(w, turns[..|turns| - 1]), turns[|turns| - 1]))
  }

  lemma SettledTurnIsClean(w: World, t: Turn)
    requires Consistent(w.db) && HeldKnown(w) && SettledTurn(w, t)
    ensures CleanTurn(w, t)
  {
    match t
    case Between(_) =>
    case Handler(op, window) =>
      if op.DeleteCommunity? && Applies(w.db, op) {
        QuietRunKeepsTables(w, window);
        DeleteCommunityCleanIff(RunEvents(w, window), op.user, op.community);
      } else {
        HandlerTurnIsClean(w, op, window);
      }
  }

  lemma {:induction false} SettledIsClean(db: Db, turns: seq<Turn>)
    requires Consistent(db) && Settled(World(db, map[], [], []), turns)
    ensures AllClean(World(db, map[], [], []), turns) && Calm(turns)
    ensures var w := RunTurns(World(db, map[], [], []), turns); Consistent(w.db) && HeldKnown(w)
  {
    if turns != [] {
      var init, last := turns[..|turns| - 1], turns[|turns| - 1];
      SettledIsClean(db, init);
      SettledTurnIsClean(RunTurns(World(db, map[], [], []), init), last);
      assert turns == init + [last];
      TurnHeldKnown(RunTurns(World(db, map[], [], []), init), last);
    }
  }

  /** Over every run in which no handler's transaction is crossed by a question or a late write about a user it changes,
      every answer is that of a direct row lookup. */
  lemma SettledAnswersAreDirect(db: Db, turns: seq<Turn>)
    requires Consistent(db) && Settled(World(db, map[], [], []), turns)
    ensures DirectThroughout(World(db, map[], [], []), turns)
  {
    SettledIsClean(db, turns);
    AnswersAreDirectIffClean(db, turns);
  }

  // ---------------------------------------------------------------- how it goes wrong

  lemma RunNext(w: World, events: seq<Event>, e: Event)
    ensures RunEvents(w, events + [e]) == Next(RunEvents(w, events), e)
  {
    assert (events + [e])[..|events|] == events;
  }

  lemma RunFour(w: World, a: Event, b: Event, c: Event, d: Event)
    ensures RunEvents(w, [a, b, c, d]) == Next(Next(Next(Next(w, a), b), c), d)
  {
    assert [a, b, c, d] == [a, b, c] + [d] && [a, b, c] == [a, b] + [c] && [a, b] == [a] + [b] && [a] == [] + [a];
    RunNext(w, [a, b, c], d);
    RunNext(w, [a, b], c);
    RunNext(w, [a], b);
    RunNext(w, [], a);
  }

  lemma TurnsNext(w: World, turns: seq<Turn>, t: Turn)
    ensures RunTurns(w, turns + [t]) == RunTurn(RunTurns(w, turns), t)
  {
    assert (turns + [t])[..|turns|] == turns;
  }

  lemma TurnsFour(w: World, a: Turn, b: Turn, c: Turn, d: Turn)
    ensures RunTurns(w, [a, b, c, d]) == RunTurn(RunTurn(RunTurn(RunTurn(w, a), b), c), d)
  {
    assert [a, b, c, d] == [a, b, c] + [d] && [a, b, c] == [a, b] + [c] && [a, b] == [a] + [b] && [a] == [] + [a];
    TurnsNext(w, [a, b, c], d);
    TurnsNext(w, [a, b], c);
    TurnsNext(w, [a], b);
    TurnsNext(w, [], a);
  }

  /** A question asked alone: its row is read and its write arrives. */
  lemma AskReadLand(w: World, user: nat, community: nat)
    requires w.cache == map[] && w.pending == [] && w.asking == [] && Lookup(w.db.members, user, community).Some?
    ensures Next(Next(Next(w, Ask(user, community)), Read(0)), Land(0))
         == w.(cache := map[PermissionRedisKey(user, community) := Lookup(w.db.members, user, community).value])
    ensures Next(Next(w, Ask(user, community)), Read(0))
         == w.(pending := [Fill(PermissionRedisKey(user, community), Lookup(w.db.members, user, community).value)])
  {
  }

  /** The handler's window: its deletions, and a question whose write arrives before the commit. */
  function AskedInWindow(db: Db, op: Op, user: nat, community: nat): seq<Event> {
    [Drop(Dropped(db, op), CommunityOf(op)), Ask(user, community), Read(0), Land(0)]
  }

  /** A question answered between the deletions and the commit leaves the old row in the cache: nothing is under way any
      more and nothing will correct the answer until the entry expires. */
  lemma StaleAfterCommit(db: Db, op: Op, user: nat, community: nat, p: Permission)
    requires Direct(db.members, user, community, p) != Direct(Step(db, op).members, user, community, p)
    requires Lookup(db.members, user, community).Some?
    ensures var w := RunTurn(World(db, map[], [], []), Handler(op, AskedInWindow(db, op, user, community)));
            && w.db == Step(db, op) && w.pending == [] && w.asking == []
            && AskAnswer(w, user, community, p) != Direct(w.db.members, user, community, p)
  {
    AnsweredBeforeCommit(World(db, map[], [], []), op, Step(db, op), user, community, p);
  }

  lemma AnsweredBeforeCommit(w: World, op: Op, db': Db, user: nat, community: nat, p: Permission)
    requires w.cache == map[] && w.pending == [] && w.asking == [] && Lookup(w.db.members, user, community).Some?
    ensures var w' := Next(RunEvents(w, AskedInWindow(w.db, op, user, community)), Commit(db'));
            w'.db == db' && w'.pending == [] && w'.asking == []
              && AskAnswer(w', user, community, p) == Direct(w.db.members, user, community, p)
  {
    WindowAsked(w, op, user, community);
    StillAnswers(w, user, community, db', p);
  }

  lemma WindowAsked(w: World, op: Op, user: nat, community: nat)
    requires w.cache == map[] && w.pending == [] && w.asking == [] && Lookup(w.db.members, user, community).Some?
    ensures RunEvents(w, AskedInWindow(w.db, op, user, community))
         == w.(cache := map[PermissionRedisKey(user, community) := Lookup(w.db.members, user, community).value])
  {
    var drop := Drop(Dropped(w.db, op), CommunityOf(op));
    RunFour(w, drop, Ask(user, community), Read(0), Land(0));
    assert Next(w, drop) == w;
    AskReadLand(w, user, community);
  }

  lemma StillAnswers(w: World, user: nat, community: nat, db': Db, p: Permission)
    requires Lookup(w.db.members, user, community).Some?
    ensures var key := PermissionRedisKey(user, community);
            var cached := w.(cache := map[key := Lookup(w.db.members, user, community).value]);
            AskAnswer(Next(cached, Commit(db')), user, community, p) == Direct(w.db.members, user, community, p)
  {
  }

  /** A write still under way when the handler starts brings the old answer back afterwards. */
  lemma LateFillAnswersOld(db: Db, op: Op, user: nat, community: nat, p: Permission)
    requires Direct(db.members, user, community, p) != Direct(Step(db, op).members, user, community, p)
    requires Lookup(db.members, user, community).Some?
    ensures var turns :=
            [Between(Ask(user, community)), Between(Read(0)), Handler(op, [Drop(Dropped(db, op), CommunityOf(op))]),
             Between(Land(0))];
            var w := RunTurns(World(db, map[], [], []), turns);
            w.db == Step(db, op) && AskAnswer(w, user, community, p) != Direct(w.db.members, user, community, p)
  {
    var w := World(db, map[], [], []);
    TurnsFour(w, Between(Ask(user, community)), Between(Read(0)),
              Handler(op, [Drop(Dropped(db, op), CommunityOf(op))]), Between(Land(0)));
    LandAfterCommit(w, op, user, community, p);
  }

  lemma LandAfterCommit(w: World, op: Op, user: nat, community: nat, p: Permission)
    requires w.cache == map[] && w.pending == [] && w.asking == [] && Lookup(w.db.members, user, community).Some?
    ensures var handled :=
            RunTurn(Next(Next(w, Ask(user, community)), Read(0)),
                    Handler(op, [Drop(Dropped(w.db, op), CommunityOf(op))]));
            Landed(handled, 0).db == Step(w.db, op)
            && AskAnswer(Landed(handled, 0), user, community, p) == Direct(w.db.members, user, community, p)
  {
    var filled := Next(Next(w, Ask(user, community)), Read(0));
    AskReadLand(w, user, community);
    HandlerAlone(filled, op);
    LateLand(filled.(db := Step(w.db, op)), user, community, p, Lookup(w.db.members, user, community).value);
  }

  lemma HandlerAlone(w: World, op: Op)
    requires w.cache == map[]
    ensures RunTurn(w, Handler(op, [Drop(Dropped(w.db, op), CommunityOf(op))])) == w.(db := Step(w.db, op))
  {
    HandledIsTurn(w, op);
    assert Handled(w, op) == w.(db := Step(w.db, op));
  }

  lemma LateLand(w: World, user: nat, community: nat, p: Permission, row: Member)
    requires w.pending == [Fill(PermissionRedisKey(user, community), row)]
    ensures Landed(w, 0).db == w.db && AskAnswer(Landed(w, 0), user, community, p) == Has(row.bits, p)
  {
  }

  /** After a community is deleted its members' entries still answer, with nothing under way. */
  lemma DeletedCommunityStillAnswers(db: Db, owner: nat, community: nat, user: nat, p: Permission)
    requires Erases(db, owner, community) && Direct(db.members, user, community, p)
    ensures var turns :=
            [Between(Ask(user, community)), Between(Read(0)), Between(Land(0)),
             Handler(DeleteCommunity(owner, community), [])];
            var w := RunTurns(World(db, map[], [], []), turns);
            w.pending == [] && w.asking == [] && AskAnswer(w, user, community, p)
              && !Direct(w.db.members, user, community, p)
  {
    var w, op := World(db, map[], [], []), DeleteCommunity(owner, community);
    TurnsFour(w, Between(Ask(user, community)), Between(Read(0)), Between(Land(0)), Handler(op, []));
    AskReadLand(w, user, community);
    StillAnswers(w, user, community, Step(db, op), p);
    LookupOutside(db.members, community, user, community);
  }
}
