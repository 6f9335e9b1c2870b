/** The handlers that change the messages and files tables, statement by statement. */
module MessageStore {
  import opened ByteText
  import opened Messages

  class MessageTables {
    var messages: seq<Message>
    var files: seq<File>
    var channels: map<nat, Channel>
    var groups: map<nat, nat>
    var nextMessage: nat
    var nextChannel: nat
    var nextGroup: nat

    ghost function State(): Log
      reads this
    {
      Log(messages, files, channels, groups, nextMessage, nextChannel, nextGroup)
    }

    constructor ()
      ensures State() == EMPTY
    {
      messages, files, channels, groups := [], [], map[], map[];
      nextMessage, nextChannel, nextGroup := 1, 1, 1;
    }

    /** SELECT ... WHERE id = ? AND community_id = ? */
    method HasMessage(id: nat, community: nat) returns (found: bool)
      ensures found <==> exists m :: m in messages && m.id == id && m.community == community
    {
      found := false;
      for i := 0 to |messages|
        invariant found <==> exists m :: m in messages[..i] && m.id == id && m.community == community
      {
        assert messages[..i + 1] == messages[..i] + [messages[i]];
        if messages[i].id == id && messages[i].community == community { found := true; }
      }
      assert messages[..|messages|] == messages;
    }

    /** SELECT ... WHERE channel_id = ? ORDER BY id DESC LIMIT 1 */
    method LatestMessage(channel: nat) returns (last: Message)
      ensures last == Latest(messages, channel)
    {
      last := NO_MESSAGE;
      for i := 0 to |messages|
        invariant last == Latest(messages[..i], channel)
      {
        assert messages[..i + 1][..i] == messages[..i];
        if messages[i].channel == channel && messages[i].id > last.id { last := messages[i]; }
      }
      assert messages[..|messages|] == messages;
    }

    /** SELECT count(*) FROM files WHERE message_id = ? AND user_id = ? */
    method CountFiles(message: nat, owner: nat) returns (n: nat)
      ensures n == FileCount(files, message, owner)
    {
      n := 0;
      for i := 0 to |files|
        invariant n == FileCount(files[..i], message, owner)
      {
        assert files[..i + 1][..i] == files[..i];
        if files[i] == File(message, owner) { n := n + 1; }
      }
      assert files[..|files|] == files;
    }

    method FindParent(parent: Option<nat>, community: nat) returns (found: bool, parentId: nat)
      ensures found <==> ParentFound(messages, community, parent)
      ensures found ==> parentId == OrZero(parent)
    {
      found, parentId := true, 0;
      if parent.Some? {
        if parent.value == 0 { return false, 0; }
        found := HasMessage(parent.value, community);
        parentId := parent.value;
      }
    }

    method Post(user: nat, community: nat, channel: nat, text: string, parent: Option<nat>, uploads: seq<bool>)
      returns (ok: bool)
      modifies this
      ensures State() == Posted(old(State()), Op.Post(user, community, channel, text, parent, uploads))
      ensures ok <==> Accepted(old(State()), Op.Post(user, community, channel, text, parent, uploads))
    {
      ok := false;
      if |uploads| > MAX_FILES { return; }
      var hasFiles := |uploads| > 0;
      if channel !in channels || channels[channel].community != community { return; }
      var found, parentId := FindParent(parent, community);
      if !found { return; }
      var message := LatestMessage(channel);
      var prevCount := CountFiles(message.id, user);
      var rows, messageId, next := messages, nextMessage, nextMessage;
      if message.author == user && parentId == 0 && !hasFiles && prevCount == 0 {
        messageId := message.id;
        var joined := message.text + "\n" + text;
        if |joined| > TEXT_LIMIT { return; }
        rows := Retext(rows, messageId, joined, false);
      } else {
        if |text| > TEXT_LIMIT { return; }
        rows := rows + [Message(messageId, community, channel, user, text, parentId, false)];
        next := next + 1;
      }
      var attached: seq<File> := [];
      for i := 0 to |uploads|
        invariant attached == Attached(messageId, user, i)
        invariant forall j :: 0 <= j < i ==> uploads[j]
      {
        if !uploads[i] { return; }
        attached := attached + [File(messageId, user)];
      }
      messages, files, nextMessage := rows, files + attached, next;
      ok := true;
    }

    method Edit(user: nat, community: nat, message: nat, text: string)
      modifies this`messages
      ensures State() == Next(old(State()), Op.Edit(user, community, message, text))
    {
      if |text| == 0 || |text| > TEXT_LIMIT || message == 0 { return; }
      var i := 0;
      while i < |messages|
        && !(messages[i].id == message && messages[i].author == user && messages[i].community == community)
        invariant 0 <= i <= |messages|
        invariant forall j :: 0 <= j < i
                    ==> !(messages[j].id == message && messages[j].author == user && messages[j].community == community)
      {
        i := i + 1;
      }
      if i < |messages| { messages := Retext(messages, message, text, true); }
    }

    method OpenGroup(community: nat)
      modifies this`groups, this`nextGroup
      ensures State() == Next(old(State()), Op.OpenGroup(community))
    {
      groups := groups[nextGroup := community];
      nextGroup := nextGroup + 1;
    }

    method OpenChannel(community: nat, home: Option<nat>)
      modifies this`channels, this`nextChannel
      ensures State() == Next(old(State()), Op.OpenChannel(community, home))
    {
      var group := 0;
      if home.Some? {
        if home.value !in groups || groups[home.value] != community { return; }
        group := home.value;
      }
      channels := channels[nextChannel := Channel(community, group)];
      nextChannel := nextChannel + 1;
    }

    method MoveChannel(community: nat, channel: nat, home: Option<nat>)
      modifies this`channels
      ensures State() == Next(old(State()), Op.MoveChannel(community, channel, home))
    {
      if channel !in channels || channels[channel].community != community { return; }
      var group := 0;
      if home.Some? {
        if home.value !in groups || groups[home.value] != community { return; }
        group := home.value;
      }
      channels := channels[channel := channels[channel].(group := group)];
    }

    /** DELETE FROM messages WHERE ... */
    method DeleteMessages(scope: Scope)
      modifies this`messages
      ensures messages == Without(old(messages), scope)
    {
      var rows: seq<Message> := [];
      for i := 0 to |messages|
        invariant rows == Without(messages[..i], scope)
      {
        assert messages[..i + 1][..i] == messages[..i];
        if !Within(messages[i], scope) { rows := rows + [messages[i]]; }
      }
      assert messages[..|messages|] == messages;
      messages := rows;
    }

    method DropChannel(community: nat, channel: nat)
      modifies this`channels, this`messages
      ensures State() == Next(old(State()), Op.DropChannel(community, channel))
    {
      if channel in channels && channels[channel].community == community { channels := channels - {channel}; }
      DeleteMessages(OfChannel(community, channel));
    }

    method DropGroup(community: nat, group: nat)
      modifies this`channels, this`groups
      ensures State() == Next(old(State()), Op.DropGroup(community, group))
    {
      if group == 0 || group !in groups || groups[group] != community { return; }
      channels := OutsideGroup(channels, group);
      groups := groups - {group};
    }

    method DropCommunity(community: nat)
      modifies this`channels, this`groups, this`messages
      ensures State() == Next(old(State()), Op.DropCommunity(community))
    {
      DeleteMessages(OfCommunity(community));
      channels := OutsideCommunity(channels, community);
      groups := GroupsOutside(groups, community);
    }
  }
}
