/** Runs of posts, edits and channel changes: the coalesced log against the plain append log, neighbours, reply
    chains. */
module MessageRuns {
  import opened ByteText
  import opened Messages

  // The rows of one channel.

  lemma InChannelAppend(ms: seq<Message>, m: Message, c: nat)
    ensures InChannel(ms + [m], c) == if m.channel == c then InChannel(ms, c) + [m] else InChannel(ms, c)
  {
  }

  lemma {:induction false} InChannelRows(ms: seq<Message>, c: nat)
    ensures forall m :: m in InChannel(ms, c) <==> m in ms && m.channel == c
  {
    if ms != [] {
      InChannelRows(ms[..|ms| - 1], c);
      assert ms == ms[..|ms| - 1] + [ms[|ms| - 1]];
    }
  }

  lemma {:induction false} InChannelIncreasing(ms: seq<Message>, c: nat)
    requires Increasing(ms)
    ensures Increasing(InChannel(ms, c))
  {
    if ms != [] {
      var init := ms[..|ms| - 1];
      InChannelIncreasing(init, c);
      InChannelRows(init, c);
      forall i | 0 <= i < |InChannel(init, c)| ensures InChannel(init, c)[i].id < ms[|ms| - 1].id {
        assert InChannel(init, c)[i] in init;
      }
    }
  }

  lemma {:induction false} LatestIsLast(ms: seq<Message>, c: nat)
    requires Increasing(ms) && forall m :: m in ms ==> m.id > 0
    ensures var s := InChannel(ms, c); Latest(ms, c) == if s == [] then NO_MESSAGE else s[|s| - 1]
  {
    if ms != [] {
      var init := ms[..|ms| - 1];
      LatestIsLast(init, c);
      InChannelRows(init, c);
    }
  }

  lemma {:induction false} InChannelRetext(ms: seq<Message>, c: nat, id: nat, text: string, edited: bool)
    ensures InChannel(Retext(ms, id, text, edited), c) == Retext(InChannel(ms, c), id, text, edited)
  {
    if ms != [] {
      var init := ms[..|ms| - 1];
      InChannelRetext(init, c, id, text, edited);
      assert Retext(ms, id, text, edited)[..|ms| - 1] == Retext(init, id, text, edited);
    }
  }

  lemma {:induction false} WithoutRows(ms: seq<Message>, scope: Scope)
    ensures forall m :: m in Without(ms, scope) <==> m in ms && !Within(m, scope)
  {
    if ms != [] {
      WithoutRows(ms[..|ms| - 1], scope);
      assert ms == ms[..|ms| - 1] + [ms[|ms| - 1]];
    }
  }

  lemma {:induction false} WithoutIncreasing(ms: seq<Message>, scope: Scope)
    requires Increasing(ms)
    ensures Increasing(Without(ms, scope))
  {
    if ms != [] {
      WithoutIncreasing(ms[..|ms| - 1], scope);
      WithoutRows(ms[..|ms| - 1], scope);
      var w := Without(ms[..|ms| - 1], scope);
      forall i | 0 <= i < |w| ensures w[i].id < ms[|ms| - 1].id { assert w[i] in ms[..|ms| - 1]; }
    }
  }

  /** All of a channel's messages fall under the deletion or none does. */
  ghost predicate AllOrNone(ms: seq<Message>, scope: Scope, c: nat, gone: bool) {
    forall m :: m in ms && m.channel == c ==> (Within(m, scope) <==> gone)
  }

  lemma {:induction false} InChannelWithout(ms: seq<Message>, scope: Scope, c: nat, gone: bool)
    requires AllOrNone(ms, scope, c, gone)
    ensures InChannel(Without(ms, scope), c) == if gone then [] else InChannel(ms, c)
  {
    if ms != [] {
      var init := ms[..|ms| - 1];
      assert ms[|ms| - 1] in ms;
      InChannelWithout(init, scope, c, gone);
      InChannelAppend(Without(init, scope), ms[|ms| - 1], c);
    }
  }

  ghost predicate Erases(ms: seq<Message>, scope: Scope, c: nat) {
    exists m :: m in ms && m.channel == c && Within(m, scope)
  }

  lemma ErasedWhole(log: Log, scope: Scope, c: nat)
    requires WellKept(log)
    ensures InChannel(Without(log.messages, scope), c)
         == if Erases(log.messages, scope, c) then [] else InChannel(log.messages, c)
  {
    var gone := Erases(log.messages, scope, c);
    if gone {
      var m :| m in log.messages && m.channel == c && Within(m, scope);
      forall p | p in log.messages && p.channel == c ensures Within(p, scope) { assert OneCommunity(m, p); }
    }
    InChannelWithout(log.messages, scope, c, gone);
  }

  // Transcripts.

  function JoinLines(texts: seq<string>): string {
    if texts == [] then ""
    else if |texts| == 1 then texts[0]
    else Line(JoinLines(texts[..|texts| - 1]), texts[|texts| - 1])
  }

  function Texts(s: seq<Message>): seq<string> {
    seq(|s|, i requires 0 <= i < |s| => s[i].text)
  }

  /** What a reader of the channel sees, line after line. */
  function Transcript(log: Log, c: nat): string {
    JoinLines(Texts(InChannel(log.messages, c)))
  }

  function Extended(transcript: string, first: bool, text: string): string {
    if first then text else Line(transcript, text)
  }

  lemma JoinAppended(texts: seq<string>, text: string)
    ensures JoinLines(texts + [text]) == Extended(JoinLines(texts), texts == [], text)
  {
  }

  lemma JoinMerged(init: seq<string>, last: string, text: string)
    ensures JoinLines(init + [Line(last, text)]) == Line(JoinLines(init + [last]), text)
  {
  }

  /** In a channel's rows only the last one carries the latest id. */
  lemma RetextLast(s: seq<Message>, text: string)
    requires Increasing(s) && s != []
    ensures Texts(Retext(s, s[|s| - 1].id, text, false)) == Texts(s)[..|s| - 1] + [text]
  {
  }

  lemma RetextElsewhere(s: seq<Message>, id: nat, text: string, edited: bool)
    requires forall m :: m in s ==> m.id != id
    ensures Retext(s, id, text, edited) == s
  {
  }

  /** A post can only be merged into a message that is there. */
  lemma MergeHasTarget(log: Log, post: Op)
    requires WellKept(log) && post.Post? && post.user > 0 && Coalesces(log, post)
    ensures InChannel(log.messages, post.channel) != []
  {
    LatestIsLast(log.messages, post.channel);
  }

  lemma MergeExtends(log: Log, post: Op)
    requires WellKept(log) && post.Post? && InChannel(log.messages, post.channel) != []
    ensures |InChannel(Merged(log, post).messages, post.channel)| == |InChannel(log.messages, post.channel)|
    ensures Transcript(Merged(log, post), post.channel) == Line(Transcript(log, post.channel), post.text)
  {
    var s := InChannel(log.messages, post.channel);
    LatestIsLast(log.messages, post.channel);
    InChannelIncreasing(log.messages, post.channel);
    var last := s[|s| - 1];
    InChannelRetext(log.messages, post.channel, last.id, Line(last.text, post.text), false);
    RetextLast(s, Line(last.text, post.text));
    TextsSplit(s);
    JoinMerged(Texts(s)[..|s| - 1], last.text, post.text);
  }

  lemma TextsSplit(s: seq<Message>)
    requires s != []
    ensures Texts(s) == Texts(s)[..|s| - 1] + [s[|s| - 1].text]
  {
  }

  lemma MergeElsewhere(log: Log, post: Op, c: nat)
    requires WellKept(log) && post.Post? && post.channel != c && InChannel(log.messages, post.channel) != []
    ensures InChannel(Merged(log, post).messages, c) == InChannel(log.messages, c)
  {
    var ms, s := log.messages, InChannel(log.messages, c);
    var last := Latest(ms, post.channel);
    LatestIsLast(ms, post.channel);
    InChannelRows(ms, c);
    InChannelRows(ms, post.channel);
    assert last in InChannel(ms, post.channel);
    InChannelRetext(ms, c, last.id, Line(last.text, post.text), false);
    forall m | m in s ensures m.id != last.id { DistinctIds(ms, m, last); }
    RetextElsewhere(s, last.id, Line(last.text, post.text), false);
  }

  lemma DistinctIds(ms: seq<Message>, a: Message, b: Message)
    requires Increasing(ms) && a in ms && b in ms
    ensures a.id == b.id ==> a == b
  {
  }

  lemma InsertExtends(log: Log, post: Op, c: nat)
    requires post.Post?
    ensures InChannel(Inserted(log, post).messages, c) == InChannel(log.messages, c)
            + if post.channel == c then [NewMessage(log, post)] else []
    ensures post.channel == c
        ==> Transcript(Inserted(log, post), c)
            == Extended(Transcript(log, c), InChannel(log.messages, c) == [], post.text)
  {
    var s, m := InChannel(log.messages, c), NewMessage(log, post);
    InChannelAppend(log.messages, m, c);
    assert Texts(s + [m]) == Texts(s) + [post.text];
    JoinAppended(Texts(s), post.text);
  }

  /** Every accepted post, merged or not, adds exactly its own text as a new line of its channel, and nothing anywhere
      else. */
  lemma PostExtendsTranscript(log: Log, post: Op, c: nat)
    requires WellKept(log) && post.Post? && post.user > 0 && Accepted(log, post)
    ensures post.channel == c ==> InChannel(Next(log, post).messages, c) != []
    ensures post.channel == c
        ==> Transcript(Next(log, post), c) == Extended(Transcript(log, c), InChannel(log.messages, c) == [], post.text)
    ensures post.channel != c ==> InChannel(Next(log, post).messages, c) == InChannel(log.messages, c)
  {
    if Coalesces(log, post) {
      MergeHasTarget(log, post);
      MergeExtends(log, post);
      if post.channel != c { MergeElsewhere(log, post, c); }
    } else {
      InsertExtends(log, post, c);
    }
  }

  // What one step keeps.

  /** The message a reworded one was. */
  lemma RetextFrom(ms: seq<Message>, id: nat, text: string, edited: bool, m: Message) returns (o: Message)
    requires m in Retext(ms, id, text, edited)
    ensures o in ms && m.(text := o.text, edited := o.edited) == o
  {
    var i :| 0 <= i < |ms| && Retext(ms, id, text, edited)[i] == m;
    o := ms[i];
  }

  lemma RetextKeeps(log: Log, id: nat, text: string, edited: bool)
    requires WellKept(log)
    ensures WellKept(log.(messages := Retext(log.messages, id, text, edited)))
  {
    var ms := log.messages;
    var next := log.(messages := Retext(ms, id, text, edited));
    forall m | m in next.messages ensures RowKept(next, m) {
      var o := RetextFrom(ms, id, text, edited, m);
      assert RowKept(log, o);
    }
    forall m, p | m in next.messages && p in next.messages ensures OneCommunity(m, p) {
      var o := RetextFrom(ms, id, text, edited, m);
      var q := RetextFrom(ms, id, text, edited, p);
      assert OneCommunity(o, q);
    }
    forall f, m | f in next.files && m in next.messages && f.message == m.id ensures f.owner == m.author {
      var o := RetextFrom(ms, id, text, edited, m);
      assert o in ms;
    }
    forall c | c in next.channels ensures ChannelKept(next, c) { assert ChannelKept(log, c); }
  }

  lemma AppendKeeps(log: Log, m: Message, n: nat)
    requires WellKept(log) && m.id == log.nextMessage && RowKept(log.(nextMessage := m.id + 1), m)
    requires forall o :: o in log.messages ==> OneCommunity(m, o) && OneCommunity(o, m)
    ensures WellKept(Appended(log, m, n))
  {
    var next := Appended(log, m, n);
    forall o | o in next.messages ensures RowKept(next, o) && (o == m || o in log.messages) {
      assert o != m ==> RowKept(log, o);
    }
    forall o, p | o in next.messages && p in next.messages ensures OneCommunity(o, p) {
      assert (o == m || o in log.messages) && (p == m || p in log.messages);
    }
    forall f | f in next.files ensures f == File(m.id, m.author) || f in log.files {}
    forall f, o | f in next.files && o in next.messages && f.message == o.id ensures f.owner == o.author {
      assert RowKept(next, o) && (o == m || o in log.messages) && (o != m ==> RowKept(log, o));
    }
    forall c | c in next.channels ensures ChannelKept(next, c) { assert ChannelKept(log, c); }
    assert Increasing(next.messages) by {
      forall i | 0 <= i < |log.messages| ensures log.messages[i].id < m.id { assert RowKept(log, log.messages[i]); }
    }
  }

  lemma InsertKeeps(log: Log, post: Op)
    requires WellKept(log) && post.Post? && post.user > 0 && Accepted(log, post)
    ensures WellKept(Inserted(log, post))
  {
    var m := NewMessage(log, post);
    ParentOlder(log, post);
    assert ChannelKept(log, m.channel);
    forall o | o in log.messages ensures OneCommunity(m, o) && OneCommunity(o, m) { assert RowKept(log, o); }
    AppendKeeps(log, m, |post.uploads|);
  }

  lemma ParentOlder(log: Log, post: Op)
    requires WellKept(log) && post.Post? && Accepted(log, post)
    ensures OrZero(post.parent) < log.nextMessage
    ensures forall o :: o in log.messages && o.id == OrZero(post.parent) ==> o.community == post.community
  {
    if OrZero(post.parent) != 0 {
      var p :| p in log.messages && p.id == post.parent.value && p.community == post.community;
      assert RowKept(log, p);
      forall o | o in log.messages && o.id == p.id
        ensures o.community == post.community
      {
        DistinctIds(log.messages, o, p);
      }
    } else {
      forall o | o in log.messages ensures o.id != 0 { assert RowKept(log, o); }
    }
  }

  ghost predicate SameFiles(log: Log, next: Log) {
    next.files == log.files && next.nextMessage == log.nextMessage
  }

  /** A deletion keeps the books when the rows that stay are as they were and no channel that stays loses its group. */
  lemma FewerKept(log: Log, next: Log)
    requires WellKept(log) && SameFiles(log, next)
    requires next.nextChannel == log.nextChannel && next.nextGroup == log.nextGroup
    requires Increasing(next.messages) && forall m :: m in next.messages ==> m in log.messages
    requires forall c :: c in next.channels
               ==> c in log.channels && next.channels[c] == log.channels[c] && ChannelKept(next, c)
    requires next.groups.Keys <= log.groups.Keys
    ensures WellKept(next)
  {
    forall m | m in next.messages ensures RowKept(next, m) { assert RowKept(log, m); }
    forall m, p | m in next.messages && p in next.messages
      ensures OneCommunity(m, p)
    {
      assert m in log.messages && p in log.messages;
    }
    forall f, m | f in next.files && m in next.messages && f.message == m.id
      ensures f.owner == m.author
    {
      assert m in log.messages;
    }
  }

  lemma DropChannelKeeps(log: Log, com: nat, c: nat)
    requires WellKept(log)
    ensures WellKept(Next(log, DropChannel(com, c)))
  {
    var next := Next(log, DropChannel(com, c));
    WithoutRows(log.messages, OfChannel(com, c));
    WithoutIncreasing(log.messages, OfChannel(com, c));
    forall d | d in next.channels ensures ChannelKept(next, d) { assert ChannelKept(log, d); }
    FewerKept(log, next);
  }

  lemma DropGroupKeeps(log: Log, com: nat, g: nat)
    requires WellKept(log)
    ensures WellKept(Next(log, DropGroup(com, g)))
  {
    var next := Next(log, DropGroup(com, g));
    forall d | d in next.channels ensures ChannelKept(next, d) { assert ChannelKept(log, d); }
    FewerKept(log, next);
  }

  lemma DropCommunityKeeps(log: Log, com: nat)
    requires WellKept(log)
    ensures WellKept(Next(log, DropCommunity(com)))
  {
    var next := Next(log, DropCommunity(com));
    WithoutRows(log.messages, OfCommunity(com));
    WithoutIncreasing(log.messages, OfCommunity(com));
    forall d | d in next.channels ensures ChannelKept(next, d) { assert ChannelKept(log, d); }
    FewerKept(log, next);
  }

  /** A group takes only channels of its own community with it, and leaves every message where it was. */
  lemma GroupsStayHome(log: Log, com: nat, g: nat, c: nat)
    requires WellKept(log) && c in log.channels && c !in Next(log, DropGroup(com, g)).channels
    ensures log.channels[c] == Channel(com, g)
    ensures Next(log, DropGroup(com, g)).messages == log.messages
  {
    assert ChannelKept(log, c);
  }

  /** User numbers start at 1. */
  ghost predicate KnownUser(op: Op) {
    op.Post? ==> op.user > 0
  }

  lemma WellKeptStep(log: Log, op: Op)
    requires WellKept(log) && KnownUser(op)
    ensures WellKept(Next(log, op))
  {
    match op
    case OpenGroup(com) => OpenGroupKeeps(log, com);
    case OpenChannel(com, home) => OpenChannelKeeps(log, com, home);
    case MoveChannel(com, c, home) => MoveChannelKeeps(log, com, c, home);
    case Post(_, _, _, text, _, _) =>
      if Accepted(log, op) {
        if Coalesces(log, op) {
          var last := Latest(log.messages, op.channel);
          RetextKeeps(log, last.id, Line(last.text, text), false);
        } else {
          InsertKeeps(log, op);
        }
      }
    case Edit(_, _, id, text) => RetextKeeps(log, id, text, true);
    case DropChannel(com, c) => DropChannelKeeps(log, com, c);
    case DropGroup(com, g) => DropGroupKeeps(log, com, g);
    case DropCommunity(com) => DropCommunityKeeps(log, com);
  }

  lemma OpenGroupKeeps(log: Log, com: nat)
    requires WellKept(log)
    ensures WellKept(Next(log, OpenGroup(com)))
  {
    var next := Next(log, OpenGroup(com));
    forall m | m in next.messages ensures RowKept(next, m) { assert RowKept(log, m); }
    forall c | c in next.channels ensures ChannelKept(next, c) { assert ChannelKept(log, c); }
  }

  lemma OpenChannelKeeps(log: Log, com: nat, home: Option<nat>)
    requires WellKept(log)
    ensures WellKept(Next(log, OpenChannel(com, home)))
  {
    var next := Next(log, OpenChannel(com, home));
    forall m | m in next.messages ensures RowKept(next, m) { assert RowKept(log, m); }
    forall c | c in next.channels ensures ChannelKept(next, c) { assert c in log.channels ==> ChannelKept(log, c); }
  }

  lemma MoveChannelKeeps(log: Log, com: nat, c: nat, home: Option<nat>)
    requires WellKept(log)
    ensures WellKept(Next(log, MoveChannel(com, c, home)))
  {
    var next := Next(log, MoveChannel(com, c, home));
    forall m | m in next.messages ensures RowKept(next, m) { assert RowKept(log, m); }
    forall d | d in next.channels ensures ChannelKept(next, d) { assert ChannelKept(log, d); }
  }

  lemma SpacedRetext(files: seq<File>, s: seq<Message>, id: nat, text: string, edited: bool)
    requires Spaced(files, s)
    ensures Spaced(files, Retext(s, id, text, edited))
  {
  }

  lemma {:induction false} CountedIsThere(files: seq<File>, message: nat, owner: nat)
    ensures FileCount(files, message, owner) > 0 <==> File(message, owner) in files
  {
    if files != [] {
      CountedIsThere(files[..|files| - 1], message, owner);
      assert files == files[..|files| - 1] + [files[|files| - 1]];
    }
  }

  lemma SpacedMoreFiles(files: seq<File>, more: seq<File>, s: seq<Message>)
    requires Spaced(files, s)
    ensures Spaced(files + more, s)
  {
  }

  lemma NewcomerApart(log: Log, post: Op, m: Message)
    requires WellKept(log) && post.Post? && !Coalesces(log, post)
    requires m.author == post.user && m.parent == OrZero(post.parent)
    requires InChannel(log.messages, post.channel) != []
    ensures var s := InChannel(log.messages, post.channel);
            Apart(log.files + Attached(m.id, m.author, |post.uploads|), s[|s| - 1], m)
  {
    var s, added := InChannel(log.messages, post.channel), Attached(m.id, m.author, |post.uploads|);
    LatestIsLast(log.messages, post.channel);
    CountedIsThere(log.files, s[|s| - 1].id, post.user);
    assert post.uploads != [] ==> added[0] == File(m.id, m.author);
  }

  lemma SpacedInsert(log: Log, post: Op, c: nat)
    requires WellKept(log) && post.Post? && !Coalesces(log, post)
    requires Spaced(log.files, InChannel(log.messages, c))
    ensures Spaced(Inserted(log, post).files, InChannel(Inserted(log, post).messages, c))
  {
    var s, m := InChannel(log.messages, c), NewMessage(log, post);
    SpacedMoreFiles(log.files, Attached(m.id, m.author, |post.uploads|), s);
    InsertExtends(log, post, c);
    if m.channel == c && s != [] { NewcomerApart(log, post, m); }
  }

  /** Two neighbouring messages of one author are there only if the later one answers another message or carries files,
      or the earlier one carries files. */
  lemma SpacedStep(log: Log, op: Op)
    requires WellKept(log) && KnownUser(op) && AllSpaced(log)
    ensures AllSpaced(Next(log, op))
  {
    forall c ensures Spaced(Next(log, op).files, InChannel(Next(log, op).messages, c)) {
      assert Spaced(log.files, InChannel(log.messages, c));
      match op
      case OpenGroup(_) =>
      case OpenChannel(_, _) =>
      case MoveChannel(_, _, _) =>
      case Post(_, _, _, text, _, _) =>
        if Accepted(log, op) {
          if Coalesces(log, op) {
            var last := Latest(log.messages, op.channel);
            InChannelRetext(log.messages, c, last.id, Line(last.text, text), false);
            SpacedRetext(log.files, InChannel(log.messages, c), last.id, Line(last.text, text), false);
          } else {
            SpacedInsert(log, op, c);
          }
        }
      case Edit(_, _, id, text) =>
        InChannelRetext(log.messages, c, id, text, true);
        SpacedRetext(log.files, InChannel(log.messages, c), id, text, true);
      case DropChannel(com, ch) => ErasedWhole(log, OfChannel(com, ch), c);
      case DropGroup(_, _) =>
      case DropCommunity(com) => ErasedWhole(log, OfCommunity(com), c);
    }
  }

  /** Nothing but dropping a channel or a community takes a message away, and nothing moves it, hands it to another
      author or makes it answer another message. */
  lemma MessagesStay(log: Log, op: Op, i: nat)
    requires WellKept(log) && KnownUser(op) && !op.DropChannel? && !op.DropCommunity? && i < |log.messages|
    ensures i < |Next(log, op).messages|
    ensures var m := Next(log, op).messages[i];
            m.(text := log.messages[i].text, edited := log.messages[i].edited) == log.messages[i]
  {
  }

  /** An edit rewords and marks exactly the author's own message of that number, and nothing when there is none. */
  lemma EditRewords(log: Log, e: Op, i: nat)
    requires WellKept(log) && e.Edit? && i < |log.messages|
    ensures var m, m' := log.messages[i], Next(log, e).messages[i];
            if m.id == e.message && m.author == e.user && m.community == e.community && 0 < |e.text| <= TEXT_LIMIT
            then m'.text == e.text && m'.edited else m' == m
  {
    assert log.messages[i] in log.messages && RowKept(log, log.messages[i]);
    if Editable(log, e) {
      var m :| m in log.messages && m.id == e.message && m.author == e.user && m.community == e.community;
      DistinctIds(log.messages, m, log.messages[i]);
    }
  }

  // Whole runs.

  ghost function Run(log: Log, ops: seq<Op>): Log {
    if ops == [] then log else Next(Run(log, ops[..|ops| - 1]), ops[|ops| - 1])
  }

  ghost predicate KnownUsers(ops: seq<Op>) {
    forall op :: op in ops ==> KnownUser(op)
  }

  lemma {:induction false} RunKept(ops: seq<Op>)
    requires KnownUsers(ops)
    ensures WellKept(Run(EMPTY, ops)) && AllSpaced(Run(EMPTY, ops))
  {
    if ops != [] {
      var init := ops[..|ops| - 1];
      RunKept(init);
      WellKeptStep(Run(EMPTY, init), ops[|ops| - 1]);
      SpacedStep(Run(EMPTY, init), ops[|ops| - 1]);
    }
  }

  /** A channel once gone, with its group or otherwise, never comes back, and nothing is posted to it any more. */
  lemma {:induction false} GoneForGood(log: Log, ops: seq<Op>, c: nat)
    requires c < log.nextChannel && c !in log.channels
    ensures c < Run(log, ops).nextChannel && c !in Run(log, ops).channels
    ensures forall post: Op :: post.Post? && post.channel == c ==> Next(Run(log, ops), post) == Run(log, ops)
  {
    if ops != [] { GoneForGood(log, ops[..|ops| - 1], c); }
  }

  ghost function Heard(log: Log, op: Op, c: nat, said: seq<string>): seq<string> {
    match op
    case Post(_, _, ch, text, _, _) => if ch == c && Accepted(log, op) then said + [text] else said
    case DropChannel(com, ch) => if Erases(log.messages, OfChannel(com, ch), c) then [] else said
    case DropCommunity(com) => if Erases(log.messages, OfCommunity(com), c) then [] else said
    case _ => said
  }

  /** The plain append log: every accepted post of the channel, as posted, since its messages were last deleted. */
  ghost function Said(ops: seq<Op>, c: nat): seq<string> {
    if ops == [] then []
    else
      var init := ops[..|ops| - 1];
      Heard(Run(EMPTY, init), ops[|ops| - 1], c, Said(init, c))
  }

  ghost predicate Reads(log: Log, c: nat, said: seq<string>) {
    Transcript(log, c) == JoinLines(said) && (InChannel(log.messages, c) == [] <==> said == [])
  }

  lemma ReadsAfterPost(log: Log, post: Op, c: nat, said: seq<string>)
    requires WellKept(log) && KnownUser(post) && post.Post? && Reads(log, c, said)
    ensures Reads(Next(log, post), c, Heard(log, post, c, said))
  {
    if Accepted(log, post) {
      PostExtendsTranscript(log, post, c);
      JoinAppended(said, post.text);
    }
  }

  lemma ReadsAfterDrop(log: Log, scope: Scope, c: nat, said: seq<string>, next: Log)
    requires WellKept(log) && Reads(log, c, said) && next.messages == Without(log.messages, scope)
    ensures Reads(next, c, if Erases(log.messages, scope, c) then [] else said)
  {
    ErasedWhole(log, scope, c);
  }

  lemma ReadsStep(log: Log, op: Op, c: nat, said: seq<string>)
    requires WellKept(log) && KnownUser(op) && !op.Edit? && Reads(log, c, said)
    ensures Reads(Next(log, op), c, Heard(log, op, c, said))
  {
    match op
    case Post(_, _, _, _, _, _) => ReadsAfterPost(log, op, c, said);
    case DropChannel(com, ch) => ReadsAfterDrop(log, OfChannel(com, ch), c, said, Next(log, op));
    case DropCommunity(com) => ReadsAfterDrop(log, OfCommunity(com), c, said, Next(log, op));
    case _ =>
  }

  ghost predicate NoEdits(ops: seq<Op>) {
    forall op :: op in ops ==> !op.Edit?
  }

  /** The merged log refines the append log: a channel reads exactly as the list of its accepted posts. */
  lemma {:induction false} TranscriptIsAppendLog(ops: seq<Op>, c: nat)
    requires KnownUsers(ops) && NoEdits(ops)
    ensures Transcript(Run(EMPTY, ops), c) == JoinLines(Said(ops, c))
    ensures InChannel(Run(EMPTY, ops).messages, c) == [] <==> Said(ops, c) == []
  {
    if ops != [] {
      var init, op := ops[..|ops| - 1], ops[|ops| - 1];
      TranscriptIsAppendLog(init, c);
      RunKept(init);
      ReadsStep(Run(EMPTY, init), op, c, Said(init, c));
    }
  }

  ghost predicate Answered(log: Log, m: Message) {
    exists p :: p in log.messages && p.id == m.parent
  }

  ghost function Parent(log: Log, m: Message): (p: Message)
    requires Answered(log, m)
    ensures p in log.messages && p.id == m.parent
  {
    var p :| p in log.messages && p.id == m.parent;
    p
  }

  /** A message and the messages it answers, one above the other, as far as they are still there. */
  ghost function Chain(log: Log, m: Message): (chain: seq<Message>)
    requires WellKept(log) && m in log.messages
    decreases m.id
  {
    if Answered(log, m) then
      assert RowKept(log, m);
      [m] + Chain(log, Parent(log, m))
    else [m]
  }

  ghost predicate Answers(reply: Message, m: Message) {
    reply.parent == m.id && m.id < reply.id && m.community == reply.community
  }

  /** Reply chains are well-founded: each step leads to an older message of the same community, down to one that answers
      nothing that is still there. */
  lemma {:induction false} ChainGoesBack(log: Log, m: Message)
    requires WellKept(log) && m in log.messages
    ensures var chain := Chain(log, m); |chain| > 0 && chain[0] == m && !Answered(log, chain[|chain| - 1])
    ensures var chain := Chain(log, m); forall i :: 0 < i < |chain| ==> Answers(chain[i - 1], chain[i])
    decreases m.id
  {
    if Answered(log, m) {
      assert RowKept(log, m);
      var parent := Parent(log, m);
      ChainGoesBack(log, parent);
      assert Chain(log, m) == [m] + Chain(log, parent) && Answers(m, parent);
    }
  }

  ghost predicate Rooted(log: Log) {
    forall m :: m in log.messages && m.parent != 0 ==> Answered(log, m)
  }

  lemma RootedRetext(log: Log, id: nat, text: string, edited: bool)
    requires Rooted(log)
    ensures Rooted(log.(messages := Retext(log.messages, id, text, edited)))
  {
    var ms := log.messages;
    var next := log.(messages := Retext(ms, id, text, edited));
    forall m | m in next.messages && m.parent != 0 ensures Answered(next, m) {
      var i :| 0 <= i < |ms| && next.messages[i] == m;
      assert ms[i] in ms && Answered(log, ms[i]);
      var j :| 0 <= j < |ms| && ms[j].id == m.parent;
      assert next.messages[j] in next.messages;
    }
  }

  lemma RootedInsert(log: Log, post: Op)
    requires Rooted(log) && post.Post? && Accepted(log, post)
    ensures Rooted(Inserted(log, post))
  {
  }

  lemma RootedSame(log: Log, next: Log)
    requires Rooted(log) && next.messages == log.messages
    ensures Rooted(next)
  {
    forall m | m in next.messages && m.parent != 0 ensures Answered(next, m) { assert Answered(log, m); }
  }

  /** A community's messages answer each other only, and go together. */
  lemma RootedDropCommunity(log: Log, com: nat)
    requires WellKept(log) && Rooted(log)
    ensures Rooted(Next(log, DropCommunity(com)))
  {
    var next := Next(log, DropCommunity(com));
    WithoutRows(log.messages, OfCommunity(com));
    forall m | m in next.messages && m.parent != 0 ensures Answered(next, m) {
      assert Answered(log, m);
      var p := Parent(log, m);
      assert OneCommunity(m, p) && p in next.messages;
    }
  }

  /** A message that stays answers one that goes. */
  ghost predicate AnsweredAcross(ms: seq<Message>, scope: Scope) {
    exists m, p :: m in ms && p in ms && m.parent == p.id && !Within(m, scope) && Within(p, scope)
  }

  lemma RootedDropIff(log: Log, com: nat, c: nat)
    requires WellKept(log) && Rooted(log)
    ensures Rooted(Next(log, DropChannel(com, c))) <==> !AnsweredAcross(log.messages, OfChannel(com, c))
  {
    var scope, next := OfChannel(com, c), Next(log, DropChannel(com, c));
    WithoutRows(log.messages, scope);
    if AnsweredAcross(log.messages, scope) {
      var m, p :| m in log.messages && p in log.messages && m.parent == p.id && !Within(m, scope) && Within(p, scope);
      assert RowKept(log, p);
      forall o | o in log.messages && o.id == m.parent ensures o == p { DistinctIds(log.messages, o, p); }
      assert m in next.messages && !Answered(next, m);
    } else {
      forall m | m in next.messages && m.parent != 0 ensures Answered(next, m) {
        assert Answered(log, m);
        assert Parent(log, m) in next.messages;
      }
    }
  }

  /** Exactly when an operation leaves an answer whose question is gone. */
  ghost predicate Cuts(log: Log, op: Op) {
    op.DropChannel? && AnsweredAcross(log.messages, OfChannel(op.community, op.channel))
  }

  lemma RootedStepIff(log: Log, op: Op)
    requires WellKept(log) && Rooted(log)
    ensures Rooted(Next(log, op)) <==> !Cuts(log, op)
  {
    match op
    case Post(_, _, _, text, _, _) =>
      if Accepted(log, op) {
        if Coalesces(log, op) {
          var last := Latest(log.messages, op.channel);
          RootedRetext(log, last.id, Line(last.text, text), false);
        } else {
          RootedInsert(log, op);
        }
      }
    case Edit(_, _, id, text) => RootedRetext(log, id, text, true);
    case DropChannel(com, c) => RootedDropIff(log, com, c);
    case DropCommunity(com) => RootedDropCommunity(log, com);
    case _ => RootedSame(log, Next(log, op));
  }

  ghost predicate RootedThroughout(ops: seq<Op>) {
    Rooted(Run(EMPTY, ops)) && (ops == [] || RootedThroughout(ops[..|ops| - 1]))
  }

  ghost predicate NeverCuts(ops: seq<Op>) {
    ops == [] || (NeverCuts(ops[..|ops| - 1]) && !Cuts(Run(EMPTY, ops[..|ops| - 1]), ops[|ops| - 1]))
  }

  /** Over every run, all chains end at messages that answer nothing throughout if and only if no channel was dropped
      while a message elsewhere answered one in it. */
  lemma {:induction false} ChainsRootedIff(ops: seq<Op>)
    requires KnownUsers(ops)
    ensures RootedThroughout(ops) <==> NeverCuts(ops)
  {
    if ops != [] {
      var init := ops[..|ops| - 1];
      ChainsRootedIff(init);
      RunKept(init);
      if RootedThroughout(init) { RootedStepIff(Run(EMPTY, init), ops[|ops| - 1]); }
    }
  }

  /** So as long as no channel is dropped, every answered message is still there. */
  lemma {:induction false} ChainsStayRooted(ops: seq<Op>)
    requires KnownUsers(ops) && forall op :: op in ops ==> !op.DropChannel?
    ensures Rooted(Run(EMPTY, ops)) && NeverCuts(ops)
  {
    if ops != [] { ChainsStayRooted(ops[..|ops| - 1]); }
    ChainsRootedIff(ops);
  }

  /** A table on which an answer from another channel is left without its question. */
  lemma DropCanCutChain()
    ensures exists log :: WellKept(log) && Rooted(log) && !Rooted(Next(log, DropChannel(1, 1)))
  {
    var question, answer := Message(1, 1, 1, 1, "a", 0, false), Message(2, 1, 2, 1, "b", 1, false);
    var log := Log([question, answer], [], map[1 := Channel(1, 0), 2 := Channel(1, 0)], map[], 3, 3, 1);
    assert log.messages[0] == question && log.messages[1] == answer;
    assert WellKept(log) && Rooted(log);
    assert AnsweredAcross(log.messages, OfChannel(1, 1));
    RootedDropIff(log, 1, 1);
  }
}
