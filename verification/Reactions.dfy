/** Reactions of one message: a list of users per reaction, toggled one user at a time, read from Redis and written back
    by a goroutine nobody waits for. */
module Reactions {
  import Tables

  datatype ReactionUser = ReactionUser(userId: nat, userHandle: string)

  type Reactions = map<string, seq<ReactionUser>>

  datatype Toggle = Toggle(user: ReactionUser, reaction: string)

  /** Position of the user's last entry, or the length. */
  function LastEntry(r: seq<ReactionUser>, user: nat): (i: nat)
    ensures i <= |r|
    ensures i < |r| ==> r[i].userId == user && forall j :: i < j < |r| ==> r[j].userId != user
    ensures i == |r| ==> forall j :: 0 <= j < |r| ==> r[j].userId != user
  {
    if r == [] then 0
    else if r[|r| - 1].userId == user then |r| - 1
    else
      var i := LastEntry(r[..|r| - 1], user);
      if i == |r| - 1 then |r| else i
  }

  function ToggledList(r: seq<ReactionUser>, user: ReactionUser): seq<ReactionUser> {
    var i := LastEntry(r, user.userId);
    if i == |r| then r + [user] else r[..i] + r[i + 1..]
  }

  function Toggled(reactions: Reactions, t: Toggle): Reactions {
    var r := ToggledList(if t.reaction in reactions then reactions[t.reaction] else [], t.user);
    if r == [] then reactions - {t.reaction} else reactions[t.reaction := r]
  }

  // ---------------------------------------------------------------- what the lists mean

  ghost predicate NoUserTwice(r: seq<ReactionUser>) {
    forall i, j :: 0 <= i < j < |r| ==> r[i].userId != r[j].userId
  }

  /** No list is empty and none names a user twice. */
  ghost predicate Tidy(reactions: Reactions) {
    forall k :: k in reactions ==> reactions[k] != [] && NoUserTwice(reactions[k])
  }

  predicate InList(r: seq<ReactionUser>, user: nat) {
    exists u :: u in r && u.userId == user
  }

  predicate Listed(reactions: Reactions, reaction: string, user: nat) {
    reaction in reactions && InList(reactions[reaction], user)
  }

  lemma ToggledListMeans(r: seq<ReactionUser>, toggler: ReactionUser, user: nat)
    requires NoUserTwice(r)
    ensures NoUserTwice(ToggledList(r, toggler))
    ensures InList(ToggledList(r, toggler), user) <==> (InList(r, user) != (user == toggler.userId))
  {
    var i := LastEntry(r, toggler.userId);
    if i == |r| {
      assert forall u :: u in r + [toggler] <==> u in r || u == toggler;
    } else {
      assert forall u :: u in r[..i] + r[i + 1..] <==> u in r && u.userId != toggler.userId;
    }
  }

  lemma ToggledMeans(reactions: Reactions, t: Toggle, reaction: string, user: nat)
    requires Tidy(reactions)
    ensures Tidy(Toggled(reactions, t))
    ensures Listed(Toggled(reactions, t), reaction, user)
       <==> (Listed(reactions, reaction, user) != (reaction == t.reaction && user == t.user.userId))
  {
    var was := if t.reaction in reactions then reactions[t.reaction] else [];
    ToggledListMeans(was, t.user, user);
    assert reaction == t.reaction
      ==> (Listed(Toggled(reactions, t), reaction, user) <==> InList(ToggledList(was, t.user), user));
  }

  /** The user's last entry in the list is the i-th. */
  ghost predicate LastOf(list: seq<ReactionUser>, user: nat, i: int) {
    && 0 <= i < |list| && list[i].userId == user
    && forall j :: i < j < |list| ==> list[j].userId != user
  }

  /** One toggle, list by list: the user's last entry goes, the others keep their order; without one the user is added
      at the end as given. An empty list is dropped, and no other list is touched. */
  lemma ToggledExactly(reactions: Reactions, t: Toggle)
    ensures forall k :: k != t.reaction ==> (k in Toggled(reactions, t) <==> k in reactions)
    ensures forall k :: k != t.reaction && k in reactions ==> Toggled(reactions, t)[k] == reactions[k]
    ensures var was := if t.reaction in reactions then reactions[t.reaction] else [];
            (forall u :: u in was ==> u.userId != t.user.userId) ==>
              t.reaction in Toggled(reactions, t) && Toggled(reactions, t)[t.reaction] == was + [t.user]
    ensures var was := if t.reaction in reactions then reactions[t.reaction] else [];
            forall i :: LastOf(was, t.user.userId, i) && |was| == 1 ==> t.reaction !in Toggled(reactions, t)
    ensures var was := if t.reaction in reactions then reactions[t.reaction] else [];
            forall i :: LastOf(was, t.user.userId, i) && |was| > 1 ==>
              t.reaction in Toggled(reactions, t) && Toggled(reactions, t)[t.reaction] == was[..i] + was[i + 1..]
  {
    var was := if t.reaction in reactions then reactions[t.reaction] else [];
    var last := LastEntry(was, t.user.userId);
    if last < |was| { assert was[last] in was; }
    forall i | LastOf(was, t.user.userId, i) ensures i == last {}
  }

  function Run(toggles: seq<Toggle>): Reactions {
    if toggles == [] then map[] else Toggled(Run(toggles[..|toggles| - 1]), toggles[|toggles| - 1])
  }

  function Times(toggles: seq<Toggle>, reaction: string, user: nat): nat {
    if toggles == [] then 0
    else
      var last := toggles[|toggles| - 1];
      Times(toggles[..|toggles| - 1], reaction, user)
        + if last.reaction == reaction && last.user.userId == user then 1 else 0
  }

  lemma ToggledParity(before: Reactions, t: Toggle, reaction: string, user: nat, times: nat)
    requires Tidy(before) && (Listed(before, reaction, user) <==> times % 2 == 1)
    ensures var more := times + if t.reaction == reaction && t.user.userId == user then 1 else 0;
            Tidy(Toggled(before, t)) && (Listed(Toggled(before, t), reaction, user) <==> more % 2 == 1)
  {
    ToggledMeans(before, t, reaction, user);
  }

  /** After any sequence of toggles the lists are tidy, and a user is listed under a reaction if and only if that user
      toggled it an odd number of times. */
  lemma {:induction false} ListedIffOdd(toggles: seq<Toggle>, reaction: string, user: nat)
    ensures Tidy(Run(toggles))
    ensures Listed(Run(toggles), reaction, user) <==> Times(toggles, reaction, user) % 2 == 1
  {
    if toggles != [] {
      var init := toggles[..|toggles| - 1];
      ListedIffOdd(init, reaction, user);
      ToggledParity(Run(init), toggles[|toggles| - 1], reaction, user, Times(init, reaction, user));
    }
  }

  /** Toggling twice restores who is listed, everywhere. */
  lemma ToggleTwiceRestores(reactions: Reactions, t: Toggle, reaction: string, user: nat)
    requires Tidy(reactions)
    ensures Listed(Toggled(Toggled(reactions, t), t), reaction, user) <==> Listed(reactions, reaction, user)
  {
    ToggledMeans(reactions, t, reaction, user);
    ToggledMeans(Toggled(reactions, t), t, reaction, user);
  }

  // ---------------------------------------------------------------- reads and writes

  /** What Redis holds, and the values on their way to it. */
  datatype Redis = Redis(stored: Reactions, underWay: seq<Reactions>)

  /** A request reads what is stored and starts writing the toggled value; a write arrives, in any order, or fails. */
  datatype Event = React(toggle: Toggle) | Lands(index: nat) | Fails(index: nat)

  const NOTHING := Redis(map[], [])

  function Next(r: Redis, e: Event): Redis {
    match e
    case React(t) => r.(underWay := r.underWay + [Toggled(r.stored, t)])
    case Lands(i) => if i >= |r.underWay| then r else Redis(r.underWay[i], Tables.RemoveAt(r.underWay, i))
    case Fails(i) => if i >= |r.underWay| then r else r.(underWay := Tables.RemoveAt(r.underWay, i))
  }

  function After(events: seq<Event>): Redis {
    if events == [] then NOTHING else Next(After(events[..|events| - 1]), events[|events| - 1])
  }

  function Toggles(events: seq<Event>): seq<Toggle> {
    if events == [] then []
    else
      var init, e := Toggles(events[..|events| - 1]), events[|events| - 1];
      if e.React? then init + [e.toggle] else init
  }

  predicate AnyFailed(events: seq<Event>) {
    events != []
    && (AnyFailed(events[..|events| - 1])
        || (events[|events| - 1].Fails? && events[|events| - 1].index < |After(events[..|events| - 1]).underWay|))
  }

  /** Every write has landed before the next request reads. */
  predicate InTurn(events: seq<Event>) {
    events == []
    || (var init := events[..|events| - 1];
        InTurn(init) && (events[|events| - 1].React? ==> After(init).underWay == [] && !AnyFailed(init)))
  }

  ghost predicate SameListing(a: Reactions, b: Reactions) {
    forall reaction, user :: Listed(a, reaction, user) <==> Listed(b, reaction, user)
  }

  /** Every value written lists whom all toggles so far list. */
  ghost predicate EveryWriteRight(events: seq<Event>) {
    events == []
    || (var init, e := events[..|events| - 1], events[|events| - 1];
        && EveryWriteRight(init)
        && (e.React? ==> SameListing(Toggled(After(init).stored, e.toggle), Run(Toggles(events)))))
  }

  lemma ToggledSame(a: Reactions, b: Reactions, t: Toggle)
    requires Tidy(a) && Tidy(b)
    ensures SameListing(Toggled(a, t), Toggled(b, t)) <==> SameListing(a, b)
  {
    forall reaction, user
      ensures (Listed(Toggled(a, t), reaction, user) <==> Listed(Toggled(b, t), reaction, user))
         <==> (Listed(a, reaction, user) <==> Listed(b, reaction, user))
    {
      ToggledMeans(a, t, reaction, user);
      ToggledMeans(b, t, reaction, user);
    }
  }

  lemma ToggledDiffers(a: Reactions, t: Toggle)
    requires Tidy(a)
    ensures !SameListing(a, Toggled(a, t))
  {
    ToggledMeans(a, t, t.reaction, t.user.userId);
  }

  lemma ToggledTidy(a: Reactions, t: Toggle)
    requires Tidy(a)
    ensures Tidy(Toggled(a, t))
  {
    ToggledMeans(a, t, t.reaction, t.user.userId);
  }

  /** While requests keep their turn, Redis holds all toggles, or all but the last, whose write is under way or
      failed. */
  ghost predicate UpToDate(r: Redis, toggles: seq<Toggle>, failed: bool) {
    && Tidy(r.stored) && |r.underWay| <= 1
    && if r.underWay == [] && !failed then SameListing(r.stored, Run(toggles))
       else
         && toggles != [] && SameListing(r.stored, Run(toggles[..|toggles| - 1]))
         && (r.underWay != [] ==> !failed && Tidy(r.underWay[0]) && SameListing(r.underWay[0], Run(toggles)))
  }

  lemma {:induction false} RunTidy(toggles: seq<Toggle>)
    ensures Tidy(Run(toggles))
  {
    ListedIffOdd(toggles, "", 0);
  }

  lemma {:induction false} InTurnUpToDate(events: seq<Event>)
    requires InTurn(events)
    ensures UpToDate(After(events), Toggles(events), AnyFailed(events))
  {
    if events != [] {
      var init, e := events[..|events| - 1], events[|events| - 1];
      var r, toggles := After(init), Toggles(init);
      InTurnUpToDate(init);
      if e.React? {
        RunTidy(toggles);
        ToggledTidy(r.stored, e.toggle);
        ToggledSame(r.stored, Run(toggles), e.toggle);
        assert (toggles + [e.toggle])[..|toggles|] == toggles;
      }
    }
  }

  /** The value a request writes is right exactly if everything before has landed. */
  lemma WriteRightIff(r: Redis, toggles: seq<Toggle>, failed: bool, t: Toggle)
    requires UpToDate(r, toggles, failed)
    ensures SameListing(Toggled(r.stored, t), Toggled(Run(toggles), t)) <==> r.underWay == [] && !failed
  {
    RunTidy(toggles);
    ToggledSame(r.stored, Run(toggles), t);
    if !(r.underWay == [] && !failed) {
      RunTidy(toggles[..|toggles| - 1]);
      ToggledDiffers(Run(toggles[..|toggles| - 1]), toggles[|toggles| - 1]);
    }
  }

  /** Over every run: every value written is what all toggles so far make it if and only if every write landed before
      the next request read. */
  lemma {:induction false} WritesRightIffInTurn(events: seq<Event>)
    ensures EveryWriteRight(events) <==> InTurn(events)
  {
    if events != [] {
      var init, e := events[..|events| - 1], events[|events| - 1];
      WritesRightIffInTurn(init);
      if InTurn(init) && e.React? {
        InTurnUpToDate(init);
        WriteRightIff(After(init), Toggles(init), AnyFailed(init), e.toggle);
        assert (Toggles(init) + [e.toggle])[..|Toggles(init)|] == Toggles(init);
      }
    }
  }

  /** And then, once the last write has landed, a user is listed exactly after an odd number of toggles. */
  lemma LandedListsOdd(events: seq<Event>, reaction: string, user: nat)
    requires InTurn(events) && After(events).underWay == [] && !AnyFailed(events)
    ensures Listed(After(events).stored, reaction, user) <==> Times(Toggles(events), reaction, user) % 2 == 1
  {
    InTurnUpToDate(events);
    ListedIffOdd(Toggles(events), reaction, user);
  }

  /** Two requests that both read before either write lands: the first toggle is lost for good. */
  lemma OverlapLosesToggle(a: Toggle, b: Toggle)
    requires a.reaction != b.reaction || a.user.userId != b.user.userId
    ensures var r := After([React(a), React(b), Lands(0), Lands(0)]);
            r.underWay == [] && Listed(r.stored, b.reaction, b.user.userId)
              && !Listed(r.stored, a.reaction, a.user.userId)
  {
    var none: Reactions := map[];
    assert [React(a), React(b), Lands(0), Lands(0)][..3] == [React(a), React(b), Lands(0)];
    assert [React(a), React(b), Lands(0)][..2] == [React(a), React(b)];
    assert [React(a), React(b)][..1] == [React(a)];
    assert After([React(a)]) == Redis(none, [Toggled(none, a)]);
    assert After([React(a), React(b)]) == Redis(none, [Toggled(none, a), Toggled(none, b)]);
    assert After([React(a), React(b), Lands(0)]) == Redis(Toggled(none, a), [Toggled(none, b)]);
    ToggledMeans(none, b, b.reaction, b.user.userId);
    ToggledMeans(none, b, a.reaction, a.user.userId);
  }

  // ---------------------------------------------------------------- the handler

  /** `append(slice[:s], slice[s+1:]...)`: the tail is shifted down inside the same backing array. */
  method RemoveReactionUser(slice: array<ReactionUser>, s: nat) returns (length: nat)
    requires s < slice.Length
    modifies slice
    ensures length == slice.Length - 1
    ensures slice[..length] == old(slice[..s]) + old(slice[s + 1..])
    ensures slice[length] == old(slice[length])
  {
    length := slice.Length - 1;
    for i := s to length
      invariant slice[..s] == old(slice[..s])
      invariant forall j :: s <= j < i ==> slice[j] == old(slice[j + 1])
      invariant forall j :: i <= j < slice.Length ==> slice[j] == old(slice[j])
    {
      slice[i] := slice[i + 1];
      assert slice[..s] == old(slice[..s]);
    }
    assert forall j :: 0 <= j < s ==> slice[j] == slice[..s][j] == old(slice[..s])[j];
  }

  class MessageReactions {
    var stored: Reactions
    var underWay: seq<Reactions>

    ghost function State(): Redis
      reads this
    {
      Redis(stored, underWay)
    }

    constructor ()
      ensures State() == NOTHING
    {
      stored, underWay := map[], [];
    }

    /** The rest of a slice, taken through its backing array. */
    static method Spliced(r: seq<ReactionUser>, idx: nat) returns (rest: seq<ReactionUser>)
      requires idx < |r|
      ensures rest == r[..idx] + r[idx + 1..]
    {
      var slice := new ReactionUser[|r|](i requires 0 <= i < |r| => r[i]);
      assert slice[..] == r;
      assert slice[..idx] == r[..idx] && slice[idx + 1..] == r[idx + 1..];
      var length := RemoveReactionUser(slice, idx);
      rest := slice[..length];
    }

    /** The user's last entry, found by looking at all of them. */
    static method Search(r: seq<ReactionUser>, user: nat) returns (adding: bool, idx: nat)
      ensures adding <==> LastEntry(r, user) == |r|
      ensures !adding ==> idx == LastEntry(r, user)
    {
      adding, idx := true, 0;
      for i := 0 to |r|
        invariant adding ==> forall j :: 0 <= j < i ==> r[j].userId != user
        invariant !adding ==> idx < i && r[idx].userId == user && forall j :: idx < j < i ==> r[j].userId != user
      {
        if r[i].userId == user { adding, idx := false, i; }
      }
    }

    /** The handler: the write goes to a goroutine. */
    method React(user: ReactionUser, reaction: string)
      modifies this`underWay
      ensures State() == Next(old(State()), Event.React(Toggle(user, reaction)))
    {
      var reactions, r := stored, [user];
      assert ToggledList([], user) == [user];
      if reaction in reactions {
        r := reactions[reaction];
        var adding, idx := Search(r, user.userId);
        if adding {
          r := r + [user];
        } else {
          r := Spliced(r, idx);
        }
      }
      if |r| > 0 {
        reactions := reactions[reaction := r];
      } else {
        reactions := reactions - {reaction};
      }
      underWay := underWay + [reactions];
    }

    /** The goroutine's write, which Redis takes or refuses. */
    method Write(index: nat, taken: bool)
      requires index < |underWay|
      modifies this
      ensures State() == Next(old(State()), if taken then Lands(index) else Fails(index))
    {
      if taken { stored := underWay[index]; }
      underWay := Tables.RemoveAt(underWay, index);
    }
  }
}
