# Verified model of the community chat service

This project models, in Dafny 4.11, the parts of the service whose correctness spans several handlers or goroutines, and
proves what they keep. `dafny verify dfyconfig.toml` checks all of it.

The SQL tables are sequences of rows in an arbitrary but fixed order, a transaction is one atomic step, and Redis is a
finite map. Handlers that change tables are methods of a class (`Store.Database`, `MessageStore.MessageTables`,
`Reactions.MessageReactions`) proved equal to a function on the tables; the theorems are about those functions and about
every run of them. The websocket hub is a transition system over its channel receives, lock acquisitions and socket
writes. Byte buffers are arrays.

| files | subject |
|---|---|
| `Tables`, `Permissions`, `PermissionRuns`, `PermissionRows`, `PermissionCorrectness`, `PermissionFrames`, `PermissionEffects` | the stored permission bits against the permissions they materialise, row by row, handler by handler and over runs; what each handler leaves in the tables, field by field |
| `Cache`, `CacheTurns` | the read-through permission cache: every interleaving of its events, and handlers whose deletions come before their commit |
| `Store` | the permission handlers themselves, statement by statement |
| `Priorities` | role priorities and the rewrite loop |
| `Hub`, `HubProgress`, `HubLog`, `HubTopics`, `HubOutcomes` | the websocket hub: invariants, progress, what was sent, and what a client's topics end as |
| `ByteText`, `ObjectId`, `IdFormat` | decimal text, Redis keys, and the object id codec; what an id is made of, bit by bit and letter by letter |
| `Messages`, `MessageRuns`, `MessageStore`, `MessageEffects` | posting, merging and editing messages; channels, groups and their deletion |
| `Pagination`, `ChannelPage`, `PostRole` | the channel page |
| `Reactions`, `RandString` | the reaction toggle with its unawaited writes, and the random string |

## What holds, and what does not

- A stored permission row equals the owner's full set, or the defaults together with every held role. For each handler and
  each row the exact condition is `Permissions.RowSafe` (`NewRowSafe` for an inserted row), a condition on the tables before
  the call. Creating a role, deleting one, joining with a code and creating a community meet it always. Editing a role
  recomputes only users who held some role beforehand (`handlers/edit_community_role.go:332`), so a picked member without
  one can be left short; when its first transaction commits and its second fails, the role's holders keep the old bits.
  Editing the defaults reads the community again through the pool
  (`handlers/edit_community_default_permissions.go:175`), so the recompute still uses the old defaults; submitting the same
  defaults again repairs the rows. A wrong row becomes right again at the next safe recompute that reaches it.
- As written, joining changes nothing. The ban query of `handlers/join_community.go:170` has one placeholder and two
  arguments, so the driver refuses it (the outcome of the check is therefore a three-valued parameter), and the insert at
  198-207 leaves out `selected_channel_id`, which has no default (`db/migrations/000033_create_user_channel_select.up.sql:1`).
  What is said of a join that goes through is about both statements repaired; then joining does not look for an existing
  row, and the owner can get a second one. The sign-in with a code fails on the same query
  (`handlers/sign_in.go:266`); the sign-up has no ban check.
- Cache entries are deleted inside the open transaction, before the commit. A question between the deletion and the
  commit reads the old row, and its write makes the old answer last, up to the hour an entry lives, although nothing is
  under way any more (`StaleAfterCommit`). A write that arrives after the commit does the same (`LateFillAnswersOld`). Every
  answer is that of a direct row lookup if and only if at each commit nobody whose answers it changes has an entry or
  a write under way; for a handler whose deletions come first this says exactly that no question about such a member
  read the row before the commit.
- Deleting a community deletes its membership rows and no cache entry (`handlers/delete_community.go:89-125`), so entries keep
  granting permissions in it (`DeletedCommunityStillAnswers`).
- Deleting a group deletes its channels and leaves their messages (`handlers/delete_group.go:168-184`). Nothing is posted to such
  a channel again, and only deleting the channel's number or the community removes its messages.
- For a page number of 0 or more, wrapped or not, a page that is shown reports the right number of messages left. The
  page number -1 shows the newest page and reports every message as remaining; other negative numbers are right exactly
  as `Pagination.NegativePageRightIff` says.
- Ids round trip although the padding is never removed. `PKCS5UnPadding` is not the inverse of the padding on
  aligned text unless it ends in a zero byte, and it panics on empty text. Two salts can give one id, exactly when one is
  the other followed by the padding its own text gets. The salts the program stores are the text of `uuid.New()`
  (`handlers/create_message.go:185`), which cannot (`UuidIdsDistinct`); a file's or picture's is followed by its extension. Stored rows of one
  kind differ in their number besides, so the collision is about the function and not about a stored id.
- Whether a client ends with a topic is settled if and only if (a) no subscribe and unsubscribe for it are both still
  to take the client's lock, a request its reader is sending counted, and (b) a request being sent asks for what is due
  without it, or its connection cannot be unregistered first. It can be by an echo under way, by a delivery on a topic the
  client has or may get, or by a broadcast on one that the hub has yet to receive, because a failing write unregisters
  it. Otherwise two schedules that finish differ (`HubOutcomes.AgreeIff`, `BothWays`).
- The reactions of a message are read from Redis and written back by a goroutine nobody waits for
  (`handlers/react_to_message.go:204-211`). Every value written is what all toggles so far make it if and only if every
  write lands before the next request reads; two overlapping requests lose a toggle for good
  (`Reactions.OverlapLosesToggle`).
- A post shows the role the channel page shows for its author, whichever each query picks, if and only if no two of
  the author's roles share the lowest priority.
- Dropping a channel leaves answers without their question exactly when a message of another channel answers one in it.

## Where the model is defined

| definition | source |
|---|---|
| `Permissions.Derived`, `Permissions.Step`, `Permissions.RowAfter`, `Permissions.RowSafe` | what a row should hold; each handler as one change of the tables, and what becomes of a row; when the row is right afterwards (`handlers/validations.go:131-245` and the handlers cited below) |
| `Cache.Next`, `Cache.Dropped` | cache events, the cache read and the row read of a question apart (`handlers/validations.go:42-116`); the entries a handler deletes (`handlers/validations.go:235-241`, `361`; `handlers/create_community_role.go:220-226`) |
| `CacheTurns.RunTurn`, `Cache.Handled` | a handler as a window of events and its commit; the same with nothing in between (`handlers/edit_community_role.go:232-341`, `handlers/delete_community_role.go:164-218`) |
| `HubTopics.Due`, `HubTopics.CanBeCutOff`, `HubTopics.Decided` | what a topic ends as, when a sender can be unregistered, when both are settled (`api_ws/api_ws.go:41-106`) |
| `Hub.Enabled`, `Hub.Apply` | when a receive, lock, write or reader move can happen, and what it does (`api_ws/api_ws.go:34-163`, `279-374`) |
| `ObjectId.Encode`, `ObjectId.Decode` | the codec on bytes (`security_helpers/object_id.go:27-143`) |
| `Messages.Posted`, `Messages.Next` | accept, merge or insert; edits, channels, groups and communities (`handlers/create_message.go:217-293`, `handlers/edit_message.go:127-181`, `handlers/create_channel.go:118-197`, `handlers/edit_channel.go:154-237`, `handlers/delete_channel.go:155-173`, `handlers/delete_group.go:168-184`, `handlers/delete_community.go:95-119`) |
| `Pagination.Shown`, `Pagination.Remaining` | window and remaining count (`handlers/channel.go:237-255`, `358-378`) |
| `Reactions.Toggled`, `Reactions.Next` | one toggle (`handlers/react_to_message.go:155-189`); reads, writes that land and writes that fail (`handlers/react_to_message.go:142-153`, `204-211`) |

## Assumptions

- Handlers run one after the other, except that questions, cache writes, deletions and expiries fall anywhere, also inside
  an open transaction, which they see nothing of.
- A transaction happens as a whole or not at all. That is the model's choice: `handlers/create_community_role.go:233` and
  `handlers/validations.go:356` go on after a statement that failed.
- A handler's permission check is separate from what the handler then does.
- AES is any permutation of 16-byte blocks with its inverse; key and initialisation vector are configured and valid.
- The database refuses a text over 2000 characters (strict SQL mode) and starts its row numbers at 1.
- Every socket write returns, with success or failure.
- A connection is a logical one. The library hands out `*websocket.Conn` objects again
  (`vendor/github.com/gofiber/contrib/websocket/websocket.go:121`, `153`, `176-196`) and the hub's map is keyed by that pointer, so
  `HubLog.NeverReenters` is not about pointers: a goroutine left from an earlier connection could unregister a later one.

## Model

| member | source | states |
|---|---|---|
| PermissionRows.RowCorrectIff | handlers/validations.go:131-245 | whatever the other rows are, a right row, or a wrong one the operation recomputes, is right afterwards if and only if the operation was safe for it |
| PermissionRows.NewRowCorrectIff | handlers/join_community.go:198-207 | the row an operation inserts is right if and only if the condition on the defaults holds |
| PermissionCorrectness.RowRunCorrectIff | handlers/validations.go:131-245 | over every run a row that starts right is right throughout if and only if every step was safe for that row, whatever happens to others |
| PermissionCorrectness.RowRecovers | handlers/validations.go:131-245 | a wrong row is right again from the first safe recompute that reaches it, as long as the steps after it are safe for it |
| PermissionCorrectness.StepCorrectIffSafe | handlers/edit_community_role.go:240-339 | starting from right rows, every row is right after an operation if and only if the operation was safe |
| PermissionCorrectness.RunCorrectIffSafe | handlers/validations.go:131-245 | over every run from empty tables, rows are right throughout if and only if every step was safe |
| PermissionCorrectness.RunConsistent | handlers/create_community_role.go:195-217 | in every run, each assignment joins a role of its community with a member of it |
| PermissionRuns.ConsistentStep | handlers/delete_community.go:89-125 | every handler, the deletion of a community among them, keeps the keys consistent |
| PermissionFrames.HandlersStayHome | handlers/edit_community_roles_priority.go:117-172 | no handler changes a role, assignment, row or default of another community |
| PermissionFrames.RoleEditApplied | handlers/edit_community_role.go:170-330 | the edited role carries what was submitted and is held exactly by the members of the community that were picked; the other roles and assignments are those there were |
| PermissionFrames.RoleDeleteApplied | handlers/delete_community_role.go:176-216 | the role and every assignment to it are gone, and nothing else |
| PermissionEffects.NewCommunityApplied | handlers/create_community.go:156-228 | the community has the table's default columns, view, invite, send and attach, and one row: the owner's, all eight bits set, in the new channel |
| PermissionEffects.JoinApplied | handlers/join_community.go:164-215 | a repaired join that passes the check adds one row with the defaults, no channel selected; any other changes no table |
| PermissionEffects.JoinByCodeApplied | handlers/sign_in.go:231-294 | one row more, and every row of the user there holds exactly what the user is owed; no other row changes |
| PermissionEffects.SelectChannelApplied | handlers/channel_select.go:147 | the channel submitted is selected in the user's rows of that community, and nothing else changes |
| PermissionEffects.RoleCreateApplied | handlers/create_community_role.go:164-271 | one role more, under the next number, with community, name, display flag and bits as submitted and the number of roles there were as priority; exactly the picked members hold it besides what was held, and have its bits besides theirs |
| PermissionEffects.RolesAreCounted | handlers/create_community_role.go:164-179 | the count the priority is taken from is the number of rows of that community |
| PermissionEffects.RoleEditRenews | handlers/edit_community_role.go:332-339 | the rows of all who held some role of the community hold what their users are owed after the edit; no other row changes |
| PermissionEffects.RoleDeleteRenews | handlers/delete_community_role.go:187-216 | so after a deletion |
| PermissionEffects.RoleHalfEditApplied | handlers/edit_community_role.go:182-232 | half an edit changes the role's name, flag and bits, and nothing else |
| PermissionEffects.UnknownRoleIgnored | handlers/delete_community_role.go:123-147 | a role number of another community, or of none, changes nothing |
| PermissionEffects.DefaultsEditApplied | handlers/edit_community_default_permissions.go:146-187 | the community has the submitted defaults, and each member's row what was owed under the old ones |
| PermissionEffects.PrioritiesEditApplied | handlers/edit_community_roles_priority.go:117-172 | a reorder changes no column but the priority, and no other table |
| PermissionEffects.DeleteCommunityApplied | handlers/delete_community.go:75-131 | for the owner, exactly the community's row, members, roles and assignments go; for anyone else nothing |
| PermissionRows.CreateRoleRow | handlers/create_community_role.go:219-270 | granting only the missing bits to the picked members leaves each right row equal to a full recompute |
| PermissionRows.DeleteRoleRow | handlers/delete_community_role.go:176-216 | recomputing the role holders only is enough after a delete: their rows are right whatever they were, and right rows stay right |
| PermissionRows.EditRoleRow | handlers/edit_community_role.go:240-339 | a member who held some role is right after the edit; one who held none stays right exactly if not picked or owed nothing new |
| PermissionRows.EditRoleHalfRow | handlers/edit_community_role.go:182-232 | when only the first transaction commits, a right row stays right exactly if it does not hold the role or no changed bit depends on it alone |
| PermissionCorrectness.HalfEditCanLeaveHoldersStale | handlers/edit_community_role.go:182-232 | a concrete table on which that leaves a holder with the old bits |
| PermissionRows.EditDefaultsRow | handlers/edit_community_default_permissions.go:146-187 | the default edit leaves a member's row right exactly if the bits do not depend on a changed default |
| PermissionRows.JoinByCodeRow | handlers/sign_in.go:231-294 | inserting an empty row and recomputing it leaves the user's rows right |
| PermissionRows.DeleteCommunityRow | handlers/delete_community.go:89-125 | deleting a community leaves right rows of other communities right |
| PermissionCorrectness.EditRoleCanLeaveMemberShort | handlers/edit_community_role.go:332-339 | a concrete table on which the role edit leaves a new holder without the role's bits |
| PermissionCorrectness.EditRoleAmongHoldersSafe | handlers/edit_community_role.go:240-339 | picking only members who already hold some role is always safe |
| PermissionCorrectness.EditDefaultsCanLeaveMembersStale | handlers/edit_community_default_permissions.go:175-181 | a concrete table on which members keep the old defaults |
| PermissionCorrectness.RepeatedDefaultEditRepairs | handlers/edit_community_default_permissions.go:146-187 | submitting the same defaults twice makes every row of the community right |
| PermissionCorrectness.JoinAsWrittenDoesNothing | handlers/join_community.go:168-207 | as written, with the check always failing, joining changes nothing and is safe, and so is a sign-in with a code |
| PermissionCorrectness.JoinCorrect | handlers/join_community.go:198-207 | with both statements repaired, inserting the defaults keeps rows right exactly if nobody is owed more than them |
| PermissionCorrectness.FirstJoinSafe | handlers/join_community.go:198-207 | then the first join of a user who is not yet a member is always safe |
| PermissionCorrectness.JoinCanDuplicateOwner | handlers/join_community.go:198-207 | and on a concrete table joining twice leaves the owner a row without the owner's bits |
| PermissionRows.RecomputesAgree | handlers/validations.go:247-364 | with consistent keys the single-user recompute grants what the batch recompute grants |
| PermissionRows.RecomputesCanDiffer | handlers/validations.go:254-300 | without them the two can differ, because one looks roles up by number alone |
| ByteText.RoleUserKeyInjective | handlers/validations.go:161-214 | distinct (role, user) pairs have distinct map keys |
| ByteText.PermissionRedisKeyInjective | db/chat_users_db/model/permissions.go:62-64 | distinct (user, community) pairs have distinct Redis keys |
| ByteText.KeyTexts | db/chat_users_db/model/permissions.go:62-64 | the keys are those texts, character for character, numbers in decimal |
| ByteText.PrintIsNumeral | security_helpers/object_id.go:130 | the number verb prints the decimal numeral without leading zeros |
| ByteText.ParseUintIff | security_helpers/object_id.go:117 | the parse gives a number exactly for its numerals, leading zeros allowed, below 2^64 |
| ByteText.SplitIsBetween | security_helpers/object_id.go:109 | the parts have no separator and give the text when joined by it |
| Tables.BitsEqual | db/chat_users_db/model/communities_users.go:15-36 | each code answers for its own column: rows that answer every code alike are equal |
| Store.ServerOwnerPermissions | handlers/validations.go:118-129 | all eight bits are set |
| Store.AddRole | handlers/validations.go:182-212 | the bits afterwards are the bits before or those of the role |
| Store.BuildRolesUserMap | handlers/validations.go:161-165 | the string-keyed map has a key exactly for each assignment of the community |
| Store.UserPermissions | handlers/validations.go:167-214 | the loops over roles and map compute the derived permissions |
| Store.Database.HasCommunityPermission | handlers/validations.go:42-116 | answers from the cache or from the row, and starts the cache write on a miss |
| Store.Database.FillLands | handlers/validations.go:78-87 | the cache write of an earlier miss arrives |
| Store.Database.RecalculateForUsers | handlers/validations.go:131-245 | for any order and repetition of users, exactly their rows become the derived permissions and their entries leave the cache |
| Store.Database.RecalculateForUser | handlers/validations.go:247-364 | the user's rows become the derived permissions, returned as well, and the entry leaves the cache |
| Store.Database.NewCommunity | handlers/create_community.go:156-228 | adds the community and its owner's full row |
| Store.Database.JoinCommunity | handlers/join_community.go:164-215 | adds a row with the defaults, or nothing on a failed or positive ban check |
| Store.Database.JoinWithCode | handlers/sign_up.go:317-353 | adds a row and recomputes it |
| Store.Database.GrantMissing | handlers/create_community_role.go:227-269 | the eight conditional updates set exactly the role's bits the row lacks |
| Store.Database.AssignPicked | handlers/create_community_role.go:195-270 | one assignment per picked row, each granted the role's bits, each entry deleted |
| Store.GrantEachIsGranted | handlers/create_community_role.go:219-270 | column by column and row by row, every picked user ends with the role's bits even when rows repeat |
| Store.Database.CreateRole | handlers/create_community_role.go:164-271 | the role gets the next number as priority and its members their bits |
| Store.Database.EditRole | handlers/edit_community_role.go:170-348 | row update, reassignment and recompute in the code's order |
| Store.Database.ReassignRole | handlers/edit_community_role.go:240-330 | the role's assignments become those of the picked members |
| Store.Database.DeleteRole | handlers/delete_community_role.go:176-216 | deletes the role and its assignments and recomputes the holders |
| Store.Database.EditDefaults | handlers/edit_community_default_permissions.go:146-187 | sets the defaults and recomputes every member with the community as read from the pool |
| Store.Database.EditPriorities | handlers/edit_community_roles_priority.go:117-172 | writes each listed role's position as its priority |
| Store.Database.SelectChannel | handlers/channel_select.go:147 | sets the selected channel and leaves the cache alone |
| Store.Database.DeleteCommunity | handlers/delete_community.go:75-131 | the owner's request removes the community, its rows, roles and assignments; the cache is left alone |
| Cache.CachedRowsWereCommitted | handlers/validations.go:42-116 | in every interleaving, the cache read and the row read of a miss apart, a cached row is one that some committed table held for that key |
| Cache.CachedRowIsTheirs | handlers/validations.go:44-80 | and it is that user's row of that community |
| Cache.AnswerIsDirect | handlers/validations.go:42-116 | with a current cache, hit or miss, the answer is that of a direct row lookup |
| Cache.AskThenRead | handlers/validations.go:46-87 | a question answered in one go is its cache read followed by its row read |
| Cache.EventsDo | handlers/validations.go:42-116 | an expiry takes one entry, a deletion the entries of the users named in that community, a question is put off only without an entry, a write that arrives replaces its entry |
| Cache.ReadDoes | handlers/validations.go:50-87 | the write a miss starts carries the user's first row of that community under their key; without a row there is none |
| Cache.DroppedAre | handlers/validations.go:235-241 | whose entries each handler deletes |
| Cache.QuietEventCoherent | handlers/validations.go:42-116 | questions, late writes, deletions and expiries keep a current cache current |
| Cache.CoherentIffAlwaysDirect | handlers/validations.go:42-116 | every continuation without a commit answers as a direct lookup if and only if no entry is outdated and no outdated write may still arrive |
| Cache.CommitCoherentIff | handlers/edit_community_role.go:341 | a commit keeps that if and only if nobody whose answers it changes has an entry or a write under way |
| CacheTurns.AnswersAreDirectIffClean | handlers/validations.go:42-116 | over every run of handlers and of events between and inside their transactions, every answer is that of a direct lookup if and only if each commit was so |
| CacheTurns.LookupSurvivesIff | handlers/delete_community.go:89 | a handler takes a member's row away exactly if it deletes that community |
| CacheTurns.HandlerDropsWhatItChanges | handlers/validations.go:235-241 | deleting the community apart, a handler deletes the entry of every member whose answers it changes |
| CacheTurns.UnaskedTurnIsClean | handlers/validations.go:235-241 | with the deletions one after the other anywhere in the transaction, it is enough that nothing about a changed user is under way or read |
| CacheTurns.HandlerTurnIsClean | handlers/validations.go:235-241 | the handler's own deletions see to the entries |
| CacheTurns.CleanIffUnanswered | handlers/edit_community_role.go:274-341 | with the deletions first and nothing under way, the cache is current after the commit if and only if no question about a changed member read the row before it |
| CacheTurns.StaleAfterCommit | handlers/delete_community_role.go:210-218 | one question between deletion and commit leaves an old answer with nothing under way, for every operation that changes it |
| CacheTurns.LateFillAnswersOld | handlers/validations.go:78-87 | a write that lands after the commit brings the old answer back |
| CacheTurns.DeleteCommunityCleanIff | handlers/delete_community.go:89-131 | deleting a community leaves the cache current if and only if nobody who could do something in it has an entry or a write under way |
| CacheTurns.DeletedCommunityStillAnswers | handlers/delete_community.go:89-131 | otherwise the cache grants what no row grants |
| CacheTurns.SettledAnswersAreDirect | handlers/validations.go:42-116 | over every run in which no transaction is crossed by a question or write about a user it changes, each answer is that of a direct lookup |
| Priorities.LastOccurrenceWins | handlers/edit_community_roles_priority.go:117-172 | a role's last position in the list is its priority; roles unlisted or of other communities keep theirs |
| Priorities.CreateKeepsDense | handlers/create_community_role.go:164-179 | taking the role count as priority keeps priorities a permutation of 0..n-1 |
| Priorities.CompleteReorderDense | handlers/edit_community_roles_priority.go:117-172 | so does a complete duplicate-free reorder |
| Priorities.DeleteDenseIffLast | handlers/delete_community_role.go:176-185 | a delete does if and only if the role came last |
| Priorities.DeleteThenCreateClashes | handlers/create_community_role.go:164-179 | otherwise the next role created shares its priority with another |
| Priorities.RunPrioritiesDense | handlers/create_community_role.go:164-179 | over every run whose deletes are of last roles and whose reorders are complete, priorities are exactly 0..n-1 |
| Priorities.SortedReorderIsOrder | handlers/edit_community_roles_priority.go:117-172 | listing by priority after a complete reorder gives back the submitted list |
| Hub.StepKeeps | api_ws/api_ws.go:34-163 | a mutex is held exactly by a goroutine of its client past the lock; a client exists from registration on; a returned reader is not registered |
| HubProgress.NeverStuck | api_ws/api_ws.go:37-162 | with work outstanding some step other than new input is enabled, for any number of clients |
| HubProgress.InternalStepPays | api_ws/api_ws.go:37-162 | every such step lowers a natural number, whatever is scheduled and however writes go |
| HubProgress.SchedulesEnd | api_ws/api_ws.go:37-162 | so no schedule without new input is longer than that number |
| HubProgress.StoppedMeansDrained | api_ws/api_ws.go:37-162 | and one that cannot continue has finished all goroutines, readers' sends and broadcasts |
| HubProgress.CanDrain | api_ws/api_ws.go:37-162 | from every reachable state the work can be finished |
| HubProgress.ClosedHasLeft | api_ws/api_ws.go:96-106 | with nothing outstanding, a client whose write failed is no longer registered |
| HubLog.StepLogged | api_ws/api_ws.go:81-155 | topics and closing flag are what the log of goroutines makes them, every outcome is the one due then, every goroutine acts once |
| HubLog.EveryBroadcastAccounted | api_ws/api_ws.go:112-155 | once its goroutines have acted, a broadcast has one outcome per connection registered when it was received, and none for others |
| HubLog.DrainedBroadcasts | api_ws/api_ws.go:112-155 | with nothing outstanding this holds of every broadcast ever posted, under its own topic |
| HubLog.RecipientsFixed | api_ws/api_ws.go:112-118 | the recipients are the connections registered at the receive, from then on |
| HubLog.FramesAreDue | api_ws/api_ws.go:81-151 | in any run, a goroutine writes, or tries to, exactly if its client has not failed a write before and, for a broadcast, the client's last word on the topic was to join; otherwise it says why not |
| HubLog.WriteTells | api_ws/api_ws.go:96-106 | each goroutine leaves one entry, in its own name, written if the socket took the frame and failed if not |
| HubLog.BroadcastReachesRegistered | api_ws/api_ws.go:112-155 | received, a broadcast starts one goroutine for each connection then registered and no other, with the topic posted, and nothing else changes |
| HubLog.ReadersMove | api_ws/api_ws.go:279-374 | a connection registers without topics, asks, pings and leaves as its reader says |
| HubLog.LastWordCounts | api_ws/api_ws.go:41-60 | a topic is subscribed exactly if the last goroutine on it joined |
| HubLog.ClosingIsFailed | api_ws/api_ws.go:96-106 | a client is closing exactly if a write to it has failed |
| HubLog.ClosingStays | api_ws/api_ws.go:96-97 | IsClosing is never taken back |
| HubLog.NeverReenters | api_ws/api_ws.go:157-160 | a logical connection once unregistered never enters the client map again, in any run |
| HubOutcomes.AgreeIff | api_ws/api_ws.go:41-106 | from any reachable state: the finishing schedules agree on a client's topic if and only if it is settled; with no request being sent, if and only if no subscribe and unsubscribe are both before the lock |
| HubOutcomes.EndsIff | api_ws/api_ws.go:41-106 | and which way they all end |
| HubOutcomes.DrainsAgreeIff | api_ws/api_ws.go:41-106 | they all leave the same topics if and only if every topic is settled |
| HubOutcomes.SubscriptionTakesEffectIff | api_ws/api_ws.go:41-60 | a subscription or its opposite, before the lock or still being sent, holds in every finishing schedule if and only if its topic is settled |
| HubOutcomes.SubscribeTakesEffectIff | api_ws/api_ws.go:41-49 | a registered connection whose reader sends a subscribe ends with the topic in some finishing schedule; in all if and only if no goroutine that renounces it is before the lock and, if the connection can be unregistered first, the topic is due anyway |
| HubOutcomes.UnsubscribeTakesEffectIff | api_ws/api_ws.go:52-60 | one that sends an unsubscribe ends without it, likewise |
| HubOutcomes.EchoIsServed | api_ws/api_ws.go:81-109 | a ping text starts exactly one goroutine that writes to its sender, and no request of an unregistered connection starts any |
| HubOutcomes.HolderTakesEffectIff | api_ws/api_ws.go:41-60 | one that has the lock does if and only if no opposite one is still to take it |
| HubOutcomes.ConflictsDiverge | api_ws/api_ws.go:41-60 | with both still to take the lock, whoever has it now, two finishing schedules leave different topics |
| HubOutcomes.CanBeLost | api_ws/api_ws.go:96-106 | a request whose sender can be unregistered first is lost in some finishing schedule, which ends as was due without it |
| HubOutcomes.FailedEchoDecides | api_ws/api_ws.go:81-106 | with an echo of the sender under way, one finishing schedule subscribes it and another ignores its subscription |
| HubOutcomes.FailedBroadcastDecides | api_ws/api_ws.go:112-151 | and so with a broadcast on a topic of the sender still to be received |
| ObjectId.CbcRoundTrip | security_helpers/object_id.go:27-52 | CBC decryption (section 6.2 of NIST SP 800-38A) undoes encryption for any block permutation |
| IdFormat.XorByteBit | security_helpers/object_id.go:83-84 | a bit of the byte operation is set exactly where the two bytes differ |
| IdFormat.XorByteUnits | security_helpers/object_id.go:83-84 | with zero it gives the byte, with the byte itself zero |
| IdFormat.CbcEncrypts | security_helpers/object_id.go:83-84 | every block of ciphertext is the cipher of the plaintext block with the bits of the block before it, or of the vector, flipped in |
| IdFormat.CbcDecrypts | security_helpers/object_id.go:47-48 | every block decrypted is the deciphered block with those bits flipped |
| IdFormat.ZeroVector | security_helpers/object_id.go:83-84 | with a zero vector one block is just ciphered, and an equal neighbour is chained through its ciphertext |
| ObjectId.Base64RoundTrip | security_helpers/object_id.go:86-88 | both base64 alphabets (sections 4 and 5 of RFC 4648) decode what they encode |
| IdFormat.Alphabet | security_helpers/object_id.go:85 | capitals, small letters, digits and the two signs of each alphabet, in that order |
| IdFormat.GroupAt | security_helpers/object_id.go:85 | letters 4g to 4g+3 are bytes 3g to 3g+2 read as one number in base 64 |
| IdFormat.EncodeLast | security_helpers/object_id.go:140 | one or two bytes left over give two or three letters, zero bits at the end, and equals signs in the standard alphabet only |
| IdFormat.Decode64Iff | security_helpers/object_id.go:31 | what is read: letters of the alphabet that leave none over, filled up to whole groups in the standard one; anything else is refused |
| IdFormat.DecodeThenEncode | security_helpers/object_id.go:91 | what is read is what the letters say, the spare bits of the last apart |
| IdFormat.BreaksIgnored | security_helpers/object_id.go:91 | line breaks are skipped |
| ObjectId.UnPaddingInvertsIff | security_helpers/object_id.go:54-58 | removing the padding gives the text back exactly for unaligned text, or aligned text ending in a zero byte; never for empty text |
| ObjectId.GetAESEncrypted | security_helpers/object_id.go:60-88 | the buffers, padded and encrypted block by block, hold the specified ciphertext |
| ObjectId.GetAESDecrypted | security_helpers/object_id.go:27-52 | the buffer decrypted in place holds the specified plaintext; malformed input is refused |
| ObjectId.DecryptBlocksInPlace | security_helpers/object_id.go:44-49 | decrypting from the last block to the first inside one buffer equals decrypting a copy |
| ObjectId.DecodeEncode | security_helpers/object_id.go:90-143 | for every uint64, object and salt: the id and object come back if neither contains a separator, else nothing |
| IdFormat.IdPlaintext | security_helpers/object_id.go:129-143 | an id is number, object and salt between slashes, filled up to whole blocks by as many bytes as are missing, each saying how many, ciphered, and written in the standard alphabet and that in the URL one |
| IdFormat.DecodeParts | security_helpers/object_id.go:90-127 | an id whose text is in three parts reads as the first, if a numeral below 2^64, and the second |
| IdFormat.DecodeOnlyParts | security_helpers/object_id.go:90-127 | nothing else reads as anything |
| ObjectId.RoundTripIff | security_helpers/object_id.go:90-143 | the exact condition of the round trip |
| ObjectId.EncodeEqualIff | security_helpers/object_id.go:129-143 | two ids are equal if and only if their plaintexts are, or one is the other followed by its own padding |
| ObjectId.EncodePartsEqualIff | security_helpers/object_id.go:129-143 | for parts without separators: if and only if number and object agree and the salts do, up to one followed by its text's padding |
| ObjectId.EncodeInjective | security_helpers/object_id.go:129-143 | so with salt bytes of at least 16 exactly for the same parts |
| ObjectId.UuidIdsDistinct | handlers/create_message.go:185 | salts that are the text of a UUID, as the program stores them, never share an id |
| ObjectId.SmallSaltBytesCollide | security_helpers/object_id.go:60-73 | smaller salt bytes can give two salts one id |
| MessageStore.MessageTables.Post | handlers/create_message.go:217-541 | the handler's statements give that result, and succeed exactly when the post is acceptable |
| MessageStore.MessageTables.LatestMessage | handlers/create_message.go:251-253 | finds the channel's row with the largest number |
| MessageStore.MessageTables.CountFiles | handlers/create_message.go:257-258 | counts the user's files of one message |
| MessageStore.MessageTables.HasMessage | handlers/create_message.go:235-242 | tells whether the community has a message of that number |
| MessageStore.MessageTables.Edit | handlers/edit_message.go:127-181 | rewords the author's own message and marks it edited |
| MessageStore.MessageTables.OpenChannel | handlers/create_channel.go:118-197 | opens a channel, in a group of its community if one is named, or does nothing |
| MessageStore.MessageTables.MoveChannel | handlers/edit_channel.go:154-237 | moves a channel to a group of its community or out of any |
| MessageStore.MessageTables.DropChannel | handlers/delete_channel.go:155-173 | removes the channel and its messages |
| MessageStore.MessageTables.DropGroup | handlers/delete_group.go:114-184 | removes the group and its channels and leaves their messages |
| MessageStore.MessageTables.DropCommunity | handlers/delete_community.go:95-119 | removes the community's messages, channels and groups |
| MessageEffects.PostRefused | handlers/create_message.go:172-541 | a post without its channel, to a message of another community, with more than five files or with one that does not go through, changes nothing and is refused |
| MessageEffects.PostMerges | handlers/create_message.go:251-274 | text alone under the same author's last message without files is added to it as a further line, or refused if that makes more than 2000 characters |
| MessageEffects.PostInserts | handlers/create_message.go:276-541 | any other post of at most 2000 characters is one row more, as submitted, with one file row per upload; a longer one is refused |
| MessageEffects.ReplyIsTaken | handlers/create_message.go:220-249 | an answer to any message of the community, whatever that message answers, is taken |
| MessageEffects.EditApplied | handlers/edit_message.go:127-181 | 1 to 2000 characters replace exactly the author's own message of that number and community |
| MessageEffects.OpenApplied | handlers/create_channel.go:118-197 | a channel opens under the next number, in the group named if it is of the community, else not at all |
| MessageEffects.MoveApplied | handlers/edit_channel.go:154-237 | a channel of the community moves to such a group or out of any; another's does not |
| MessageEffects.DropsApplied | handlers/delete_group.go:114-184 | which messages, channels and groups remain after each of the three deletions |
| MessageRuns.PostExtendsTranscript | handlers/create_message.go:251-293 | merged or not, an accepted post adds exactly its text as one more line of its channel and changes no other channel |
| MessageRuns.TranscriptIsAppendLog | handlers/create_message.go:251-293 | over every run without edits a channel reads as the list of all texts accepted since its messages were last deleted |
| MessageRuns.RunKept | handlers/create_message.go:251-293 | in every run, two neighbouring messages of one author are there only for a parent or for files; ids grow, parents are older and of the same community, a channel's messages are of one community, its own while it exists, groups are of their channels' community, files belong to the author |
| MessageRuns.MessagesStay | handlers/edit_message.go:173 | apart from deleted channels and communities, no message goes, moves or changes author or parent |
| MessageRuns.ErasedWhole | handlers/delete_channel.go:166-173 | a deletion takes all of a channel's messages or none |
| MessageRuns.GroupsStayHome | handlers/delete_group.go:168-173 | deleting a group, by group number alone, takes only channels of its own community and no message |
| MessageRuns.GoneForGood | handlers/create_message.go:172 | a channel once gone never comes back, and nothing is posted to it in any run |
| MessageRuns.EditRewords | handlers/edit_message.go:127-181 | an edit rewords and marks exactly the author's own message |
| MessageRuns.ChainGoesBack | handlers/create_message.go:220-249 | reply chains go to ever older messages of one community and end |
| MessageRuns.RootedStepIff | handlers/delete_channel.go:155-173 | every answered message stays there if and only if the operation drops no channel that a message of another answers into; deleting a community takes whole chains |
| MessageRuns.ChainsRootedIff | handlers/create_message.go:235-249 | over every run, all chains end at messages that answer nothing throughout if and only if no step was such a drop |
| MessageRuns.ChainsStayRooted | handlers/create_message.go:235-249 | so they do as long as no channel is dropped |
| MessageRuns.DropCanCutChain | handlers/delete_channel.go:155-173 | a table on which a drop leaves an answer without its question |
| Pagination.FetchPage | handlers/channel.go:237-255 | the reversed query result is the right window of the channel, oldest first |
| Pagination.PagesCover | handlers/channel.go:237-255 | pages p to 0 together are exactly the newest messages in order, and the remaining count is the rest |
| Pagination.PageHolds | handlers/channel.go:237-255 | page p shows the up to fifty messages that end 50p before the newest, and reports the rest |
| Pagination.OffsetsWrap | handlers/channel.go:358-378 | for any page number the offset is 50 times it, wrapped into 64 bits with a sign, and the amount 50 times the next, wrapped without one |
| Pagination.ShownByIds | handlers/channel.go:243 | the window is by message number |
| Pagination.RemainingRight | handlers/channel.go:358-378 | for every page number of at least 0, wrapped or not, a page that is shown reports exactly the older messages |
| Pagination.NegativePageRightIff | handlers/channel.go:358-378 | for every negative one: if and only if it is the smallest number there is, or the channel has at most a page and no more than the computed amount |
| Pagination.MinusOneCountsAll | handlers/channel.go:372-378 | page -1 counts every message as remaining |
| ChannelPage.SplitRoles | handlers/channel.go:222-229 | the shown roles in order, and the index by number |
| ChannelPage.RankRoles | handlers/channel.go:480-492 | a user's roles, strongest first |
| ChannelPage.PickShown | handlers/channel.go:494-503 | the stored loop variable holds the first shown role when the loop stops |
| ChannelPage.PickRoles | handlers/channel.go:480-504 | the maps of slices and pointers keep every user's own roles to the end |
| ChannelPage.GroupUsers | handlers/channel.go:505-524 | the users without a shown role, by handle, and those of each shown role |
| ChannelPage.TextLeqIff | handlers/channel.go:476-512 | one handle is listed before another if it is a beginning of it or has the smaller character where they first differ |
| ChannelPage.EachUserOnce | handlers/channel.go:505-524 | both kinds of lists together hold every fetched user exactly once |
| ChannelPage.MemberLists | handlers/channel.go:205-524 | the whole computation: one place per user, under a shown role of minimal priority in the order fetched, or among those without one by handle, character for character; and the strongest role right |
| ChannelPage.SortFuncOrders | handlers/channel.go:490-512 | the sort orders by any total order and keeps all elements |
| PostRole.RoleForPost | handlers/create_message.go:578-644 | a strongest role assigned to the author, none, or the error when its roles are gone |
| PostRole.PostRoleIsPageRoleIff | handlers/create_message.go:608-644 | with consistent keys it is the role the channel page shows, whichever of several each side picks, if and only if no two of the user's roles share the lowest priority |
| PostRole.PostRoleIsPageRole | handlers/channel.go:480-495 | so it is with distinct priorities, with gaps or without |
| PostRole.RunPostRoleIsPageRole | handlers/channel.go:480-495 | after every run that leaves the community's priorities distinct |
| PostRole.TidyRunPostRoleIsPageRole | handlers/channel.go:480-495 | among them every run whose deletes are of last roles and whose reorders are complete |
| PostRole.AssignedHasRole | handlers/create_message.go:608-644 | with consistent keys the error cannot occur, and both show a role or neither does |
| Reactions.WritesRightIffInTurn | handlers/react_to_message.go:142-211 | over every run of requests, landing writes and failing writes: each value written lists whom all toggles so far list if and only if every write landed before the next request read |
| Reactions.LandedListsOdd | handlers/react_to_message.go:142-211 | and then, once the last write has landed, a user is listed exactly after an odd number of toggles |
| Reactions.OverlapLosesToggle | handlers/react_to_message.go:204-211 | of two requests that both read before either write lands, the first is lost for good |
| Reactions.ListedIffOdd | handlers/react_to_message.go:155-189 | toggles applied one to the result of the other leave no list empty or naming a user twice, and list exactly those with an odd number |
| Reactions.ToggleTwiceRestores | handlers/react_to_message.go:155-189 | toggling twice restores who is listed |
| Reactions.ToggledExactly | handlers/react_to_message.go:155-189 | the list with the user's last entry taken out, or with the user, number and handle, at its end; an empty list goes, and other lists stay |
| Reactions.RemoveReactionUser | db/chat_users_db/model/messages_reactions.go:36-38 | shifting the tail inside the array removes exactly one entry |
| Reactions.MessageReactions.React | handlers/react_to_message.go:142-211 | the search, removal and map update start the write of exactly the toggled lists and leave what is stored |
| Reactions.MessageReactions.Write | handlers/react_to_message.go:204-211 | a started write arrives, or fails and changes nothing stored |
| RandString.RandString | handlers/random_string.go:19-35 | the string is the first n accepted six-bit digits of the source, last one first, drawing no more words than needed |
| RandString.DigitsMakeTheWord | handlers/random_string.go:26-31 | the digits taken are the word's own six-bit groups, lowest first |
| RandString.AcceptedInOrder | handlers/random_string.go:22-32 | the accepted digits are exactly the words' six-bit groups below 52, ten a word from the lowest, in the order of the source |
| RandString.LetterIs | handlers/random_string.go:11 | the alphabet is the small letters, then the capitals |
| RandString.NextDigit | handlers/random_string.go:23-31 | low digits first, ten per word, a new word when one is used up |

## Left out

- HTTP parsing, validators, JSON response shapes, sessions, password hashing, HMAC signing, logging, profile and beta handlers: library calls and formatting.
- Uploads, image and video services, mail, deployment and the job queue: network calls. A post only knows whether each upload goes through.
- Kick, ban and leave: their SQL names a table no migration creates, so they never commit (handlers/kick_user.go:178).
- Permissions.Step: one handler is one step, so two handlers' statements do not interleave. The two transactions of the role edit are one step, or, when the second fails, EditRoleHalf.
- Cache.Next: expiry is an event at any time; the one-hour lifetime itself is not modelled, nor is a Redis failure, on which a question is refused.
- CacheTurns.AnswersAreDirectIffClean: the transactions of two handlers do not overlap.
- Store.Database.EditRole: the name and colour checks before the first statement are not modelled.
- Hub.Apply: the hub is modelled on values, step by step, because goroutines interleave; timestamps, the ping text and the panic handler's write are left out, and the ping handler's lock and unlock are one step.
- HubLog.NeverReenters: does not model the reuse of connection objects by the library's pool.
- Messages.Next: creation and update times are left out, and so are numbers skipped when an insert is rolled back.
- MessageRuns.TranscriptIsAppendLog: an edit changes a transcript by design, so the run theorem leaves edits out; what an edit keeps is in MessagesStay and EditRewords.
- Reactions.Next: a failing Redis read, which the handler takes for an empty store (handlers/react_to_message.go:148-153), is not modelled.
- Pagination.FetchPage: the page and the count are read by two queries; a post between them is not modelled.
- ChannelPage.MemberLists: the fetched users, roles and join rows are inputs; the queries that gather them are not modelled.
- ChannelPage.SortFuncOrders: the library sort is any sort; nothing is said of rows with equal keys.
- ObjectId.GetAESEncrypted: key and vector are parameters; their checks and the AES block function are not part of this model.
- Priority columns are unbounded numbers here; the 16-bit width is not modelled.
- Unread marks, wall-clock rounding, the sitemap, slugs and the constant-true permission checks.
