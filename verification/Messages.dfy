/** Posting and editing messages: the coalesce-or-insert decision, parent links and file rows. */
module Messages {
  import opened ByteText

  datatype Message = Message(id: nat, community: nat, channel: nat, author: nat, text: string, parent: nat,
                             edited: bool)

  datatype File = File(message: nat, owner: nat)

  /** A channel outside any group has group 0. */
  datatype Channel = Channel(community: nat, group: nat)

  /** The rows in insertion order; `groups` gives each group's community. */
  datatype Log = Log(messages: seq<Message>, files: seq<File>, channels: map<nat, Channel>, groups: map<nat, nat>,
                     nextMessage: nat, nextChannel: nat, nextGroup: nat)

  /** A post names its parent, if any, and a channel its group, by the decoded number (0 when it decodes to nothing or
      to another type); a post also says for each attached file whether its upload goes through. */
  datatype Op =
    | OpenGroup(community: nat)
    | OpenChannel(community: nat, home: Option<nat>)
    | MoveChannel(community: nat, channel: nat, home: Option<nat>)
    | Post(user: nat, community: nat, channel: nat, text: string, parent: Option<nat>, uploads: seq<bool>)
    | Edit(user: nat, community: nat, message: nat, text: string)
    | DropChannel(community: nat, channel: nat)
    | DropGroup(community: nat, group: nat)
    | DropCommunity(community: nat)

  const EMPTY := Log([], [], map[], map[], 1, 1, 1)
  const MAX_FILES := 5
  const TEXT_LIMIT := 2000

  /** What the driver leaves in the struct when no row is found. */
  const NO_MESSAGE := Message(0, 0, 0, 0, "", 0, false)

  function InChannel(ms: seq<Message>, channel: nat): (s: seq<Message>)
    ensures |s| <= |ms|
  {
    if ms == [] then []
    else if ms[|ms| - 1].channel == channel then InChannel(ms[..|ms| - 1], channel) + [ms[|ms| - 1]]
    else InChannel(ms[..|ms| - 1], channel)
  }

  /** The channel's row with the largest id. */
  function Latest(ms: seq<Message>, channel: nat): (m: Message) {
    if ms == [] then NO_MESSAGE
    else
      var m, rest := ms[|ms| - 1], Latest(ms[..|ms| - 1], channel);
      if m.channel == channel && m.id > rest.id then m else rest
  }

  function FileCount(files: seq<File>, message: nat, owner: nat): (n: nat) {
    if files == [] then 0
    else FileCount(files[..|files| - 1], message, owner) + if files[|files| - 1] == File(message, owner) then 1 else 0
  }

  function Retexted(m: Message, id: nat, text: string, edited: bool): Message {
    if m.id == id then m.(text := text, edited := m.edited || edited) else m
  }

  function Retext(ms: seq<Message>, id: nat, text: string, edited: bool): (s: seq<Message>) {
    seq(|ms|, i requires 0 <= i < |ms| => Retexted(ms[i], id, text, edited))
  }

  /** What a DELETE FROM messages names. */
  datatype Scope = OfChannel(community: nat, channel: nat) | OfCommunity(community: nat)

  predicate Within(m: Message, scope: Scope) {
    m.community == scope.community && (scope.OfChannel? ==> m.channel == scope.channel)
  }

  function Without(ms: seq<Message>, scope: Scope): (s: seq<Message>) {
    if ms == [] then []
    else
      var m, rest := ms[|ms| - 1], Without(ms[..|ms| - 1], scope);
      if Within(m, scope) then rest else rest + [m]
  }

  ghost predicate ParentFound(ms: seq<Message>, community: nat, parent: Option<nat>) {
    match parent
    case None => true
    case Some(p) => p != 0 && exists m :: m in ms && m.id == p && m.community == community
  }

  predicate GroupFound(groups: map<nat, nat>, community: nat, home: Option<nat>) {
    match home
    case None => true
    case Some(g) => g in groups && groups[g] == community
  }

  function OrZero(number: Option<nat>): nat {
    match number
    case None => 0
    case Some(n) => n
  }

  predicate ChannelFound(channels: map<nat, Channel>, community: nat, channel: nat) {
    channel in channels && channels[channel].community == community
  }

  ghost predicate Coalesces(log: Log, post: Op)
    requires post.Post?
  {
    var last := Latest(log.messages, post.channel);
    && last.author == post.user && OrZero(post.parent) == 0 && post.uploads == []
    && FileCount(log.files, last.id, post.user) == 0
  }

  /** Two texts as lines one below the other. */
  function Line(above: string, below: string): string {
    above + "\n" + below
  }

  ghost predicate Accepted(log: Log, post: Op)
    requires post.Post?
  {
    && |post.uploads| <= MAX_FILES
    && ChannelFound(log.channels, post.community, post.channel)
    && ParentFound(log.messages, post.community, post.parent)
    && (var last := Latest(log.messages, post.channel);
        |if Coalesces(log, post) then Line(last.text, post.text) else post.text| <= TEXT_LIMIT)
    && forall i :: 0 <= i < |post.uploads| ==> post.uploads[i]
  }

  function Attached(message: nat, owner: nat, n: nat): (fs: seq<File>) {
    seq(n, i => File(message, owner))
  }

  function Merged(log: Log, post: Op): Log
    requires post.Post?
  {
    var last := Latest(log.messages, post.channel);
    log.(messages := Retext(log.messages, last.id, Line(last.text, post.text), false))
  }

  function NewMessage(log: Log, post: Op): Message
    requires post.Post?
  {
    Message(log.nextMessage, post.community, post.channel, post.user, post.text, OrZero(post.parent), false)
  }

  /** The log with one more message and its files. */
  function Appended(log: Log, m: Message, files: nat): Log {
    log.(messages := log.messages + [m], files := log.files + Attached(m.id, m.author, files), nextMessage := m.id + 1)
  }

  function Inserted(log: Log, post: Op): Log
    requires post.Post?
  {
    Appended(log, NewMessage(log, post), |post.uploads|)
  }

  ghost function Posted(log: Log, post: Op): Log
    requires post.Post?
  {
    if !Accepted(log, post) then log else if Coalesces(log, post) then Merged(log, post) else Inserted(log, post)
  }

  ghost predicate Editable(log: Log, e: Op)
    requires e.Edit?
  {
    && 0 < |e.text| <= TEXT_LIMIT && e.message != 0
    && exists m :: m in log.messages && m.id == e.message && m.author == e.user && m.community == e.community
  }

  function OutsideGroup(channels: map<nat, Channel>, group: nat): map<nat, Channel> {
    map c | c in channels && channels[c].group != group :: channels[c]
  }

  function OutsideCommunity(channels: map<nat, Channel>, community: nat): map<nat, Channel> {
    map c | c in channels && channels[c].community != community :: channels[c]
  }

  function GroupsOutside(groups: map<nat, nat>, community: nat): map<nat, nat> {
    map g | g in groups && groups[g] != community :: groups[g]
  }

  /** Deleting a channel or a community deletes messages; deleting a group deletes its channels only. */
  ghost function Next(log: Log, op: Op): Log {
    match op
    case OpenGroup(com) => log.(groups := log.groups[log.nextGroup := com], nextGroup := log.nextGroup + 1)
    case OpenChannel(com, home) =>
      if GroupFound(log.groups, com, home)
      then log.(channels := log.channels[log.nextChannel := Channel(com, OrZero(home))],
                nextChannel := log.nextChannel + 1)
      else log
    case MoveChannel(com, c, home) =>
      if ChannelFound(log.channels, com, c) && GroupFound(log.groups, com, home)
      then log.(channels := log.channels[c := Channel(com, OrZero(home))])
      else log
    case Post(_, _, _, _, _, _) => Posted(log, op)
    case Edit(_, _, id, text) =>
      if Editable(log, op) then log.(messages := Retext(log.messages, id, text, true)) else log
    case DropChannel(com, c) =>
      log.(messages := Without(log.messages, OfChannel(com, c)),
           channels := if ChannelFound(log.channels, com, c) then log.channels - {c} else log.channels)
    case DropGroup(com, g) =>
      if g != 0 && GroupFound(log.groups, com, Some(g))
      then log.(channels := OutsideGroup(log.channels, g), groups := log.groups - {g})
      else log
    case DropCommunity(com) =>
      log.(messages := Without(log.messages, OfCommunity(com)), channels := OutsideCommunity(log.channels, com),
           groups := GroupsOutside(log.groups, com))
  }

  // What every run keeps.

  ghost predicate Increasing(ms: seq<Message>) {
    forall i, j :: 0 <= i < j < |ms| ==> ms[i].id < ms[j].id
  }

  ghost predicate RowKept(log: Log, m: Message) {
    && 0 < m.id < log.nextMessage && 0 < m.author && m.parent < m.id && m.channel < log.nextChannel
    && (m.channel in log.channels ==> log.channels[m.channel].community == m.community)
  }

  ghost predicate OneCommunity(m: Message, p: Message) {
    m.parent == p.id || m.channel == p.channel ==> p.community == m.community
  }

  ghost predicate ChannelKept(log: Log, c: nat)
    requires c in log.channels
  {
    c < log.nextChannel && (log.channels[c].group != 0
                            ==> GroupFound(log.groups, log.channels[c].community, Some(log.channels[c].group)))
  }

  /** Ids grow with the rows and are never reused, every parent is older than its reply and of the same community, the
      messages of one channel are of one community, the channel's own while it exists, every group is of its channels'
      community, and every file belongs to its message's author. */
  ghost predicate WellKept(log: Log) {
    && log.nextMessage > 0 && log.nextGroup > 0
    && Increasing(log.messages)
    && (forall m :: m in log.messages ==> RowKept(log, m))
    && (forall m, p :: m in log.messages && p in log.messages ==> OneCommunity(m, p))
    && (forall f :: f in log.files ==> f.message < log.nextMessage)
    && (forall f, m :: f in log.files && m in log.messages && f.message == m.id ==> f.owner == m.author)
    && (forall c :: c in log.channels ==> ChannelKept(log, c))
    && (forall g :: g in log.groups ==> 0 < g < log.nextGroup)
  }

  ghost predicate HasFiles(files: seq<File>, m: Message) {
    File(m.id, m.author) in files
  }

  /** Why two neighbouring messages of one author were not merged. */
  ghost predicate Apart(files: seq<File>, earlier: Message, later: Message) {
    earlier.author == later.author ==> later.parent != 0 || HasFiles(files, later) || HasFiles(files, earlier)
  }

  ghost predicate Spaced(files: seq<File>, s: seq<Message>) {
    forall i :: 0 < i < |s| ==> Apart(files, s[i - 1], s[i])
  }

  ghost predicate AllSpaced(log: Log) {
    forall c :: Spaced(log.files, InChannel(log.messages, c))
  }
}
