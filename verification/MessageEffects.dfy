/** What each handler leaves in the messages, files, channels and groups tables, told in the tables' own terms. */
module MessageEffects {
  import opened ByteText
  import opened Messages
  import opened MessageRuns

  // ---------------------------------------------------------------- posting

  /** The channel is there, the message answered, if any, is of the same community, and at most five files all go
      through. */
  ghost predicate Fits(log: Log, post: Op)
    requires post.Post?
  {
    && post.channel in log.channels && log.channels[post.channel].community == post.community
    && (post.parent.Some? ==>
          exists m :: m in log.messages && m.id == post.parent.value && m.community == post.community)
    && |post.uploads| <= 5 && false !in post.uploads
  }

  ghost predicate LastIn(ms: seq<Message>, channel: nat, m: Message) {
    m in ms && m.channel == channel && forall o :: o in ms && o.channel == channel ==> o.id <= m.id
  }

  /** Text without files that answers nothing, after the same author's message without files. */
  ghost predicate Continues(log: Log, post: Op, m: Message)
    requires post.Post?
  {
    && LastIn(log.messages, post.channel, m) && m.author == post.user
    && post.parent.None? && post.uploads == [] && File(m.id, post.user) !in log.files
  }

  lemma LatestIsLastIn(log: Log, channel: nat, m: Message)
    requires WellKept(log) && LastIn(log.messages, channel, m)
    ensures Latest(log.messages, channel) == m
  {
    forall o | o in log.messages ensures o.id > 0 { assert RowKept(log, o); }
    var s := InChannel(log.messages, channel);
    LatestIsLast(log.messages, channel);
    InChannelRows(log.messages, channel);
    InChannelIncreasing(log.messages, channel);
    assert m in s;
    var last := s[|s| - 1];
    assert last in s;
    var i :| 0 <= i < |s| && s[i] == m;
  }

  /** The handler's lookups say what `Fits` says. */
  lemma FitsIsChecked(log: Log, post: Op)
    requires WellKept(log) && post.Post?
    ensures Fits(log, post) <==>
              && ChannelFound(log.channels, post.community, post.channel)
              && ParentFound(log.messages, post.community, post.parent)
              && |post.uploads| <= MAX_FILES && forall i :: 0 <= i < |post.uploads| ==> post.uploads[i]
  {
    if post.parent.Some? {
      forall m | m in log.messages && m.id == post.parent.value ensures m.id != 0 { assert RowKept(log, m); }
    }
    assert false !in post.uploads <==> forall i :: 0 <= i < |post.uploads| ==> post.uploads[i];
  }

  lemma ContinuesIsCoalesced(log: Log, post: Op)
    requires WellKept(log) && post.Post? && post.user > 0 && Fits(log, post)
    ensures forall m :: Continues(log, post, m) ==> Coalesces(log, post) && m == Latest(log.messages, post.channel)
    ensures Coalesces(log, post) ==> Continues(log, post, Latest(log.messages, post.channel))
  {
    FitsIsChecked(log, post);
    forall m | LastIn(log.messages, post.channel, m) ensures m == Latest(log.messages, post.channel) {
      LatestIsLastIn(log, post.channel, m);
    }
    CountedIsThere(log.files, Latest(log.messages, post.channel).id, post.user);
    if Coalesces(log, post) {
      MergeHasTarget(log, post);
      LatestHasLargestId(log, post.channel);
    }
  }

  lemma LatestHasLargestId(log: Log, channel: nat)
    requires WellKept(log) && InChannel(log.messages, channel) != []
    ensures LastIn(log.messages, channel, Latest(log.messages, channel))
  {
    var s := InChannel(log.messages, channel);
    forall o | o in log.messages ensures o.id > 0 { assert RowKept(log, o); }
    LatestIsLast(log.messages, channel);
    InChannelRows(log.messages, channel);
    InChannelIncreasing(log.messages, channel);
    assert s[|s| - 1] in s;
    forall o | o in log.messages && o.channel == channel ensures o.id <= s[|s| - 1].id {
      assert o in s;
      var i :| 0 <= i < |s| && s[i] == o;
    }
  }

  lemma PostRefused(log: Log, post: Op)
    requires WellKept(log) && post.Post? && !Fits(log, post)
    ensures Next(log, post) == log && !Accepted(log, post)
  {
    FitsIsChecked(log, post);
  }

  /** A post that continues a message is put under it, unless the two together are too long; nothing else changes. */
  lemma PostMerges(log: Log, post: Op, m: Message)
    requires WellKept(log) && post.Post? && post.user > 0 && Fits(log, post) && Continues(log, post, m)
    ensures |m.text| + 1 + |post.text| > 2000 ==> Next(log, post) == log && !Accepted(log, post)
    ensures |m.text| + 1 + |post.text| <= 2000 ==>
              var next := Next(log, post);
              && Accepted(log, post)
              && next == log.(messages := next.messages) && |next.messages| == |log.messages|
              && forall i :: 0 <= i < |log.messages| ==>
                   var o := log.messages[i];
                   next.messages[i] == if o.id == m.id then o.(text := m.text + "\n" + post.text) else o
  {
    FitsIsChecked(log, post);
    ContinuesIsCoalesced(log, post);
    assert |Line(m.text, post.text)| == |m.text| + 1 + |post.text|;
  }

  /** Any other post becomes a message of its own under the next number, with its files, unless it is too long. */
  lemma PostInserts(log: Log, post: Op)
    requires WellKept(log) && post.Post? && post.user > 0 && Fits(log, post)
    requires forall m :: !Continues(log, post, m)
    ensures |post.text| > 2000 ==> Next(log, post) == log && !Accepted(log, post)
    ensures |post.text| <= 2000 ==>
              var next, parent := Next(log, post), if post.parent.None? then 0 else post.parent.value;
              && Accepted(log, post)
              && next.messages == log.messages
                 + [Message(log.nextMessage, post.community, post.channel, post.user, post.text, parent, false)]
              && next.files == log.files + seq(|post.uploads|, i => File(log.nextMessage, post.user))
              && next.nextMessage == log.nextMessage + 1
              && next == log.(messages := next.messages, files := next.files, nextMessage := next.nextMessage)
  {
    FitsIsChecked(log, post);
    ContinuesIsCoalesced(log, post);
  }

  /** So an answer to any message of the community is taken, whatever that message answers itself. */
  lemma ReplyIsTaken(log: Log, post: Op, p: Message)
    requires WellKept(log) && post.Post? && post.user > 0 && post.parent == Some(p.id) && post.uploads == []
    requires post.channel in log.channels && log.channels[post.channel].community == post.community
    requires p in log.messages && p.community == post.community && |post.text| <= 2000
    ensures Next(log, post).messages == log.messages
            + [Message(log.nextMessage, post.community, post.channel, post.user, post.text, p.id, false)]
    ensures Next(log, post).files == log.files
  {
    PostInserts(log, post);
    assert seq(0, i => File(log.nextMessage, post.user)) == [];
  }

  /** An edit of 1 to 2000 characters rewords and marks the author's own message of that number, and nothing else. */
  lemma EditApplied(log: Log, e: Op)
    requires WellKept(log) && e.Edit?
    ensures var next := Next(log, e);
            && next == log.(messages := next.messages) && |next.messages| == |log.messages|
            && forall i :: 0 <= i < |log.messages| ==>
                 var m := log.messages[i];
                 next.messages[i] == if m.id == e.message && m.author == e.user && m.community == e.community
                                        && 1 <= |e.text| <= 2000
                                     then m.(text := e.text, edited := true) else m
  {
    forall i | 0 <= i < |log.messages| ensures log.messages[i].id > 0 { assert RowKept(log, log.messages[i]); }
    forall i | 0 <= i < |log.messages|
      ensures var m := log.messages[i];
              Next(log, e).messages[i] == if m.id == e.message && m.author == e.user && m.community == e.community
                                             && 1 <= |e.text| <= 2000
                                          then m.(text := e.text, edited := true) else m
    {
      EditRewords(log, e, i);
    }
  }

  // ---------------------------------------------------------------- channels and groups

  /** A group opens under the next number; a channel too, in the group named if it is of the same community. */
  lemma OpenApplied(log: Log, com: nat, home: Option<nat>)
    ensures Next(log, OpenGroup(com))
         == log.(groups := log.groups[log.nextGroup := com], nextGroup := log.nextGroup + 1)
    ensures var taken := home.None? || (home.value in log.groups && log.groups[home.value] == com);
            var group := if home.None? then 0 else home.value;
            Next(log, OpenChannel(com, home))
            == if taken then log.(channels := log.channels[log.nextChannel := Channel(com, group)],
                                  nextChannel := log.nextChannel + 1)
               else log
  {
  }

  /** A channel moves to a group of its community, or out of any; nobody moves another community's channel. */
  lemma MoveApplied(log: Log, com: nat, c: nat, home: Option<nat>)
    ensures var taken := c in log.channels && log.channels[c].community == com
                         && (home.None? || (home.value in log.groups && log.groups[home.value] == com));
            var group := if home.None? then 0 else home.value;
            Next(log, MoveChannel(com, c, home))
            == if taken then log.(channels := log.channels[c := Channel(com, group)]) else log
  {
  }

  /** The deletions: a channel goes with its messages, a group with its channels but not their messages, a community
      with everything. Files stay. */
  lemma DropsApplied(log: Log, com: nat, c: nat)
    requires WellKept(log)
    ensures var next := Next(log, DropChannel(com, c));
            && (forall m: Message :: m in next.messages
                  <==> m in log.messages && !(m.channel == c && m.community == com))
            && next.channels == (if c in log.channels && log.channels[c].community == com then log.channels - {c}
                                 else log.channels)
            && next == log.(messages := next.messages, channels := next.channels)
    ensures var next := Next(log, DropGroup(com, c));
            if c in log.groups && log.groups[c] == com then
              && next.groups == log.groups - {c}
              && next.channels == (map k | k in log.channels && log.channels[k].group != c :: log.channels[k])
              && next == log.(channels := next.channels, groups := next.groups)
            else next == log
    ensures var next := Next(log, DropCommunity(com));
            && (forall m: Message :: m in next.messages <==> m in log.messages && m.community != com)
            && next.channels == (map k | k in log.channels && log.channels[k].community != com :: log.channels[k])
            && next.groups == (map g | g in log.groups && log.groups[g] != com :: log.groups[g])
            && next == log.(messages := next.messages, channels := next.channels, groups := next.groups)
  {
    WithoutRows(log.messages, OfChannel(com, c));
    WithoutRows(log.messages, OfCommunity(com));
  }
}
