# meinchat: a verified model of the chat back end

meinchat is a chat plugin whose services keep counters, ledgers, indexes and logs. Almost everything it stores has a
simple meaning in terms of what has happened so far, and this project proves, for every run, that the stored state and
that meaning agree. `dafny verify dfyconfig.toml` checks all of it.

Each cluster comes in two layers. The *specification* layer is functions on values: one function per operation with the
branches, edge cases and errors of the Python code, a `Run` over any sequence of operations, and the lemmas about all
runs. For each operation a lemma says exactly when it succeeds, which error it ends with otherwise, what changes and what
stays. The *service* layer is classes whose methods change fields step by step, with the loops of the Python code; each
method is proved to do exactly what its specification function says, and to be a step of a run, so the lemmas hold of the
services. A request is a serial transaction that commits or rolls back whole, except on the event bus, where every
atomic action of every thread is a step of its own and steps interleave arbitrarily.

| Files | What they model |
|---|---|
| `BusIndex`, `EventBus` | the channel-to-subscribers index and the in-process bus as objects |
| `BusMachine`, `SerialBus`, `BusThreads` | the bus as small steps (snapshot, check, put, mark closed, unregister) in every schedule |
| `RedisBus`, `RedisDelivery` | any number of workers over one publish log: what they receive, and what becomes of a publish |
| `RedisListener`, `ListenerLog` | the listener's two loops, and what they deliver of the log |
| `StreamLoop` | the timed loop behind a stream: cap, heartbeats, queue |
| `RateLimit` | the window counter, the limiter and the policy that configures it |
| `Text`, `Conversations`, `MessageService`, `Badges` | 1:1 conversations, messages and unread slots |
| `Rooms`, `Protocols`, `RoomService` | membership, authority, room counters, the two protocol pickers |
| `Ledger`, `WidgetMeter`, `GuestTokens`, `GuestTokenAdmin`, `Transfers`, `TokenTransferService` | the token economy |
| `WidgetSessions`, `WidgetSessionServices` | widget starts, reuse, grants and the session cleanup |
| `Slugs`, `Nicknames`, `NicknameService` | nickname validation and generation, the directory, bans |
| `Retention`, `RetentionService`, `MessagePages` | pruning rows and blobs, cursor paging |
| `Common` | options, results, duplicate-free lists |

Inputs that come from outside (clock readings, random suffixes, what Redis delivers, whether the storage fails, how long
a consumer takes, configuration, lower-casing, nickname resolution, user roles) are parameters. The core `TokenService`
is not part of this repository; `Ledger` models the contract its callers rely on: a credit goes through, and a debit
fails without effect when the balance is short.

## Where the code and its comments differ

The model follows the code.

- The rate limiter is a fixed window opened by a call, not a sliding one (`meinchat/services/rate_limiter.py:47-57`).
  `SlidesExactlyUnlessStraddling` says from which counter readings one window length can admit more than the ceiling;
  `IntervalBound` and `IntervalBoundIsReached` say what k window lengths can admit from any state, and `RealRunBound` and
  `RealRunBoundIsReached` what they can in a run of a fresh limiter.
- The advertised retry time is truncated to whole seconds; `RetryAdvice` says exactly when a caller who waits it out is
  admitted, and `RetryCanBeTooEarly` shows one who is not.
- Deleting or pruning a message changes no unread counter (`meinchat/services/message_service.py:748-783`); the counters
  agree with the history of sends, in which deleted messages still count.
- `invite` does not look at the pinned protocol (`meinchat/services/room_service.py:103-119`); `InviteMayBreakThePin` says
  exactly when an invitation leaves an encrypted room with a member who cannot take part, and `InviteBreaksThePin` shows
  one that does.
- The two protocol pickers do not always agree; `PickersAgreeExactly` gives the condition and `PickersCanDisagree` a case.
- `$` in the nickname pattern also matches before a final newline (`meinchat/services/slug_validator.py:9`), so `"abc\n"`
  is accepted; `AcceptedIsCleanUnlessNewline` shows that this is the only leak.
- `prune_attachments` and `prune_messages` read the clock separately (`meinchat/services/retention_service.py:120-126`): a
  row that crosses the threshold in between is deleted and its blobs stay behind. `CrossingRowLeavesItsBlob` shows one,
  `NoOrphanExactlyUnlessCrossing` proves that this is the only way without storage failures, and `OrphansAreWhatJobsLeft`
  accounts for every orphaned blob of a whole run.
- A published payload that is not UTF-8 raises out of the listener's inner loop, past the handler for malformed JSON
  (`meinchat/services/redis_event_bus.py:180-189`), and costs the worker its connection.
- `subscribe_many([])` records the channel `""` without registering under it (`meinchat/services/event_bus.py:41-51`).
- By the time `clear_user_sessions` resets a balance the user's sessions are gone, so the guest path of the reset is never
  taken (`ResetNeverTakesGuestPath`).

## Model

| member | source | states |
|---|---|---|
| BusIndex.BucketExistsIffHeld | meinchat/services/event_bus.py:59-70 | in a well-formed index a channel has a bucket exactly when somebody is registered under it, so no bucket is ever left empty |
| BusIndex.RegisterKeepsWellFormed | meinchat/services/event_bus.py:48-50 | registering a newcomer under distinct channels leaves no bucket empty or with a duplicate |
| BusIndex.UnregisterMembers | meinchat/services/event_bus.py:59-70 | unregistering takes the subscriber out of its buckets, drops buckets that become empty, and leaves every other registration |
| EventBus.Subscription.Deliver | meinchat/services/event_bus_base.py:62-64 | an open mailbox gets the event at its end, a closed one stays as it is |
| EventBus.Subscription.Close | meinchat/services/event_bus_base.py:95-100 | closing twice is closing once; afterwards the subscription is in no bucket and everybody else's registration is unchanged |
| EventBus.MeinchatEventBus.SubscribeMany | meinchat/services/event_bus.py:33-51 | one new open subscription, in exactly the buckets of the listed channels, once each |
| EventBus.MeinchatEventBus.Enter | meinchat/services/event_bus.py:48-50 | the locked loop registers the newcomer under each distinct channel and keeps the bus valid |
| EventBus.MeinchatEventBus.Publish | meinchat/services/event_bus.py:53-57 | every open subscription that asked for the channel gets the event exactly once, nobody else gets anything |
| EventBus.MeinchatEventBus.Unsubscribe | meinchat/services/event_bus.py:59-70 | the subscription leaves all its buckets, other registrations stay, and the index is exact again |
| EventBus.MeinchatEventBus.ChannelCount | meinchat/services/event_bus.py:73-75 | the count is the number of distinct channels with an open subscriber |
| BusMachine.StepKeepsIndex | meinchat/services/event_bus.py:33-70 | each atomic step of any thread keeps the index invariant |
| BusMachine.IndexAlwaysExact | meinchat/services/event_bus.py:33-70 | in every schedule, with concurrent and repeated closes: no bucket is empty or repeats a subscriber, and a subscription is in exactly the buckets of its channels until it is unregistered and in none after |
| BusMachine.NeverRegisteredAgain | meinchat/services/event_bus_base.py:95-100 | once unregistered, no later step puts a subscription back into any bucket |
| BusMachine.ChannelCountIsLiveChannels | meinchat/services/event_bus.py:73-75 | in every schedule the number of buckets is the number of distinct channels of the subscriptions still registered |
| BusMachine.DeliveryAlways | meinchat/services/event_bus.py:53-57 | the delivery invariant (snapshots, positions, puts) holds in every schedule |
| BusMachine.DeliveredExactlyOnce | meinchat/services/event_bus.py:41-57 | in every schedule a publish enters one mailbox at most once, only on a channel it asked for, only if it was in the snapshot; a finished publish is in every still open mailbox of its snapshot |
| BusThreads.LogIsWhatBegan | meinchat/services/event_bus.py:53-57 | in every schedule the log is the list of the publishes made, channel and event, in order |
| BusThreads.SubscribeIsExact | meinchat/services/event_bus.py:33-51 | one new open empty mailbox for exactly the listed channels, and no other mailbox touched |
| BusThreads.TakeIsExact | meinchat/services/event_bus_base.py:66-93 | consuming takes the first waiting event whenever there is one, and nothing else |
| BusThreads.FinishAlone | meinchat/services/event_bus.py:53-57 | no publish gets stuck: from wherever its thread is it can run to its end, and then it has been put into exactly the open mailboxes it still had ahead |
| BusThreads.PublishAlone | meinchat/services/event_bus.py:53-57 | after any schedule an uninterrupted publish puts its event at the end of exactly the open mailboxes of its channel and does nothing else: the steps refine what the bus promises as one object |
| BusThreads.CloseAlone | meinchat/services/event_bus_base.py:95-100 | after any schedule an uninterrupted close marks its mailbox and takes it out of every bucket, and leaves every other mailbox and registration alone |
| SerialBus.WantedIsExact | meinchat/services/event_bus.py:53-57 | the reference history lists each publish on a subscribed channel once, in publish order, and misses none |
| SerialBus.SerialAlways | meinchat/services/event_bus.py:53-57 | when publishes do not overlap each other, every mailbox follows the log at every step |
| SerialBus.OpenMailboxIsTheLog | meinchat/services/event_bus_base.py:62-64 | between publishes, an open mailbox's history is exactly the publishes on its channels since it subscribed, in order |
| SerialBus.ClosedMailboxIsTheLogUpToClose | meinchat/services/event_bus_base.py:95-100 | a closed mailbox has exactly the publishes begun before its flag was set, but perhaps the one being delivered just then |
| SerialBus.CloseBetweenPublishesIsExact | meinchat/services/event_bus_base.py:95-100 | a close between publishes cuts the history exactly there, whatever happens later |
| RedisBus.StripPrefixUndoesPublish | meinchat/services/redis_event_bus.py:132-135 | stripping gives back the published channel for every prefix and channel |
| RedisBus.WorkerRefinesInProcessBus | meinchat/services/redis_event_bus.py:126-130 | in every interleaving of any number of workers, each worker's local state is that of an in-process bus publishing serially at the worker's fan-out points |
| RedisBus.WorkerFollowsTheLog | meinchat/services/redis_event_bus.py:137-190 | a worker fans out log entries at most once and in publish order, under the right channel, and has skipped none since its connection was made |
| RedisBus.PastAlways | meinchat/services/redis_event_bus.py:137-190 | in every interleaving a worker's fan-outs are the accepted log entries of its connected stretches, one stretch after the other |
| RedisBus.OnlyTheGapsAreLost | meinchat/services/redis_event_bus.py:137-190 | a log entry reaches a worker's fan-out exactly when it is this plugin's and was handed over while one of the worker's connections was up |
| RedisBus.WantedPositions | meinchat/services/redis_event_bus.py:126-130 | the fan-outs that concern a subscription sit exactly at the log entries on its channels |
| RedisBus.MailboxIsTheRedisLog | meinchat/services/redis_event_bus.py:80-190 | an open subscription on a worker connected since before it subscribed got exactly the log entries of its channels from then on, in log order |
| RedisBus.DrainedWorkerLog | meinchat/services/redis_event_bus.py:167-190 | a worker connected from the start that has drained the log has the in-process bus's publish history |
| RedisBus.RedisMatchesInProcess | meinchat/services/redis_event_bus.py:80-190 | with the connection up throughout, a subscriber holds the same events in the same order as one of an in-process bus given the same publishes |
| RedisDelivery.LogIsWhatWasPublished | meinchat/services/redis_event_bus.py:80-81 | in every interleaving, when nobody else publishes under the prefix, what listeners can hear of the log is exactly the list of publishes made, each under its own channel and with its own event |
| RedisDelivery.SamePublishesSameMailboxes | meinchat/services/redis_event_bus.py:80-190 | give an in-process bus the publishes made on the Redis bus: two subscribers of the same channels that came in at the same point hold the same events in the same order |
| RedisDelivery.HandOver | meinchat/services/redis_event_bus.py:167-190 | a connected worker whose listener is free can always take the next message to its end, and then it is at the end of exactly the open mailboxes of its channel |
| RedisDelivery.BinaryEndsTheConnection | meinchat/services/redis_event_bus.py:180-189 | a message that is not UTF-8 leaves every mailbox alone and the worker disconnected |
| RedisDelivery.CanCatchUp | meinchat/services/redis_event_bus.py:137-190 | a connected worker can always drain the log, whatever the others do, short of a message that ends its connection |
| RedisDelivery.PublishArrives | meinchat/services/redis_event_bus.py:80-190 | a publish made by any worker can be delivered by every connected worker that is up to date, to exactly its open mailboxes of that channel |
| RedisDelivery.FromPublisherToSubscriber | meinchat/services/redis_event_bus.py:52-190 | from nothing, for every prefix, channel and event: a worker connects, somebody subscribes, the event is published, and it is what the subscriber finds |
| RedisDelivery.GapIsLost | meinchat/services/redis_event_bus.py:137-165 | what is published right after a disconnection never reaches that worker, whatever happens later |
| RedisListener.RedisEventBus.Consume | meinchat/services/redis_event_bus.py:167-190 | the inner loop hands every well-formed pushed message to each open subscription of its channel once and in order; silence, control messages and malformed payloads reach nobody; one that is not UTF-8 ends the connection and with it the loop |
| RedisListener.RedisEventBus.Attempt | meinchat/services/redis_event_bus.py:139-164 | one connection: what it delivers, how long the pause after it is and the next backoff |
| RedisListener.RedisEventBus.Listen | meinchat/services/redis_event_bus.py:137-165 | over any sequence of connections the mailboxes get what the sessions delivered, and each pause is the one called for by the failures in a row |
| RedisListener.PauseAfter | meinchat/services/redis_event_bus.py:145-158 | a session that did subscribe resets the backoff, any other waits the doubled one |
| RedisListener.PauseIsCappedPower | meinchat/services/redis_event_bus.py:157-158 | after n failures in a row the pause is 1, 2, 4, 8 or 16 seconds, and 30 after any more |
| RedisListener.ReadableStops | meinchat/services/redis_event_bus.py:180-189 | the inner loop gets through exactly what comes before the first message that is not UTF-8 |
| ListenerLog.ConnectionIsTheLog | meinchat/services/redis_event_bus.py:167-190 | a connection that hands over a stretch of the log delivers to each mailbox what an in-process bus would have delivered of it |
| StreamLoop.Limit | meinchat/services/event_bus_base.py:81-86 | a wait is the heartbeat or the rest of the stream's life, positive, and never past either |
| StreamLoop.IterEvents | meinchat/services/event_bus_base.py:66-93 | the record of a run is exact: each read begins when the one before is consumed, looks for the first event not taken, waits for the heartbeat or the rest of the life and yields the event, a heartbeat or nothing; so the stream is a first-in first-out prefix of the events, no wait passes the deadline, it ends at the first check past it or at the close, and with a prompt consumer nothing that arrived before the deadline is missed |
| StreamLoop.RunIsSettled | meinchat/services/event_bus_base.py:66-93 | what arrives and how long the consumer takes settle the whole run: of two records of such reads the shorter begins the longer |
| StreamLoop.RecordIsOk | meinchat/services/event_bus_base.py:66-93 | after any such reads the items are the events taken, the turns are the events, the heartbeats and the silent timeouts, and a capped stream has spent an interval on each heartbeat |
| StreamLoop.HeartbeatsAreBounded | meinchat/services/event_bus_base.py:66-93 | heartbeats of which the last began before the cap are at most as many as fill the cap |
| StreamLoop.RoundedUpIsExact | meinchat/services/event_bus_base.py:66-93 | the number of intervals that fill the cap is the one number n with (n - 1) * interval < cap <= n * interval: the cap divided by the interval, rounded up |
| StreamLoop.CappedStream | meinchat/services/event_bus_base.py:66-93 | a capped stream yields a first-in first-out prefix of the events and at most the cap divided by the heartbeat, rounded up, heartbeats, and returns within one turn per event, one per heartbeat and two more |
| RateLimit.InMemoryCounterBackend.Incr | meinchat/services/rate_limiter.py:47-57 | opens or continues the key's window, returns the new count and the remaining time, and touches no other key |
| RateLimit.RateLimiter.Check | meinchat/services/rate_limiter.py:86-97 | counts every call and refuses it exactly when its number in the window exceeds the ceiling, with the remaining time |
| RateLimit.KeysAreDistinct | meinchat/services/rate_limiter.py:94 | two colon-free categories never share a counter, nor do two users |
| RateLimit.BoundFromHere | meinchat/services/rate_limiter.py:47-57 | from any point of a run, what is left of the open window plus one ceiling per window that can still open bounds the admissions |
| RateLimit.WindowBound | meinchat/services/rate_limiter.py:47-97 | in one window at most `limit` calls made with a ceiling of at most `limit` are admitted, whatever other ceilings interleave |
| RateLimit.IntervalBound | meinchat/services/rate_limiter.py:47-97 | any half-open interval k windows long admits at most (k + 1) ceilings, from any state |
| RateLimit.SlidesExactlyUnlessStraddling | meinchat/services/rate_limiter.py:47-97 | from a moment on, no run gets more than one ceiling admitted within one window length, if and only if the counter as it stands then is not that of a window under way, with room left, that ends before the length has passed |
| RateLimit.LiveWindowIsReached | meinchat/services/rate_limiter.py:47-97 | from a window under way that ends in time, some run gets what is left and k full ceilings admitted within k window lengths |
| RateLimit.OneCeilingOtherwise | meinchat/services/rate_limiter.py:47-97 | from every other state every run gets at most one ceiling admitted within one window length |
| RateLimit.IntervalBoundIsReached | meinchat/services/rate_limiter.py:47-97 | over all counter states the bound of k + 1 ceilings is attained, for every k |
| RateLimit.RealRunBound | meinchat/services/rate_limiter.py:47-97 | in a run of a limiter that has seen no call, k window lengths admit at most k + 1 ceilings less one |
| RateLimit.RealRunBoundIsReached | meinchat/services/rate_limiter.py:47-97 | and some such run attains that, for every k |
| RateLimit.WindowCounts | meinchat/services/rate_limiter.py:54-57 | while a window lasts the counter is the number of calls on its key, admitted or not |
| RateLimit.AdmittedIffAmongFirst | meinchat/services/rate_limiter.py:86-97 | a call is admitted exactly when it is among the first `limit` calls of its window |
| RateLimit.RetryAdvice | meinchat/services/rate_limiter.py:57-97 | a refused caller who tries again after the advertised seconds, nobody else using the key, is admitted exactly when the remaining time was a whole number of seconds or under one second, and that is exactly when the retry opens a window |
| RateLimit.RetryCanBeTooEarly | meinchat/services/rate_limiter.py:57 | with 1.5 seconds remaining the advice is one second and the retry is refused |
| RateLimit.AdvertisedSeconds | meinchat/services/rate_limiter.py:47-57 | the advertised seconds are the whole window for the call that opens it, and else the remaining time without its fraction, one at least |
| RateLimit.PositiveAt | meinchat/services/rate_limit_policy.py:80-90 | a configured number is used only when positive |
| RateLimit.LimitsFor | meinchat/services/rate_limit_policy.py:58-78 | every known category gets positive numbers whatever the configuration holds; exactly the unknown ones are refused |
| RateLimit.LimitsForIsExact | meinchat/services/rate_limit_policy.py:58-90 | which numbers a category gets, ceiling and window: the platform's own pair; without a complete positive one the general pair; without that the old single key where there was one; and else the built-in numbers |
| RateLimit.FirstCallIsAdmitted | meinchat/services/rate_limit_policy.py:58-90 | under the policy the call that opens a window always passes |
| Text.SplitKeepsText | meinchat/services/widget_room_meter.py:38-42 | splitting into words loses nothing but whitespace, and every word is non-empty and free of whitespace |
| Text.NoWordsIffBlank | meinchat/services/widget_room_meter.py:38-42 | a body has no words exactly when it is all whitespace |
| Text.StrippedBodyHasWords | meinchat/services/message_service.py:309-314 | a body accepted as non-empty has at least one billable word |
| Text.SplitAtSpace | meinchat/services/widget_room_meter.py:38-42 | words on the two sides of whitespace are counted separately |
| Text.OneWord | meinchat/services/widget_room_meter.py:38-42 | a text without whitespace is one word, which with the rule above settles every split |
| Text.StripCuts | meinchat/services/message_service.py:309 | stripping takes whitespace off the two ends and nothing else |
| Conversations.OrderPair | meinchat/services/conversation_service.py:22-26 | two different users in increasing order, and nothing for a user with themselves |
| Conversations.StartOrGetIsSymmetric | meinchat/services/conversation_service.py:35-46 | whichever way round the users are named they get the same row, the only one of the pair, and asking again changes nothing |
| Conversations.StartOrGetIsExact | meinchat/services/conversation_service.py:35-46 | the conversation the two have, or else one more in which nobody has anything to read; no message, counter or other conversation is touched |
| Conversations.UnreadAfterPost | meinchat/services/conversation_service.py:82-87 | a send adds one unread message to the history of the sender's peer and of nobody else |
| Conversations.PostKeepsInv | meinchat/services/message_service.py:346-353 | saving a message of any kind and bumping the peer's slot keeps slots and history in agreement |
| Conversations.StepKeepsInv | meinchat/services/message_service.py:290-395 | every operation keeps one row per pair and each slot equal to its history |
| Conversations.RunKeepsInv | meinchat/services/message_service.py:290-783 | the agreement holds after every run |
| Conversations.UnreadIsHistory | meinchat/services/message_service.py:348-384 | after any run of sends of every kind, reads, deletions and prunes, a slot is the number of messages the peer sent since the last read, deleted ones included |
| Conversations.BadgeIsHistory | meinchat/services/push_notification_hook.py:125-132 | the badge is the number of messages sent to the user and not read, over the whole inbox |
| Badges.TableAlwaysMatchesLog | meinchat/services/message_service.py:336-346 | over every run each message id is given out once and each row of the table is one message of the history |
| Badges.SlotIsRowsPlusGone | meinchat/services/push_notification_hook.py:125-132 | after any run a slot is the number of rows the reader has not read plus the number of unread messages deleted or pruned; it never shows less than there is to read and is exact as long as nothing unread has gone |
| Conversations.SendTextIsExact | meinchat/services/message_service.py:290-359 | a text goes out exactly when the conversation exists, the sender is in it and the body has text and fits; then one row with a new id and the body without the whitespace around it, one more moment in the history, one more unread for the peer, and nothing else in any conversation; otherwise nothing at all, and which check failed |
| Conversations.SendAttachmentIsExact | meinchat/services/message_service.py:564-638 | an image goes out exactly when the conversation exists, the sender is in it, the caption fits and the image decodes; an empty caption will do; the peer gets one unread message |
| Conversations.PostSystemIsExact | meinchat/services/message_service.py:703-744 | a system message goes out in every existing conversation, whoever it names as its sender, and counts as unread |
| Conversations.MarkReadIsExact | meinchat/services/message_service.py:375-384 | reading works exactly for a member of an existing conversation; it clears that member's slot and logs the read, and changes no other slot, conversation or message |
| Conversations.PruneIsExact | meinchat/services/retention_service.py:72-89 | the prune takes exactly the rows sent before the threshold and leaves counters and history alone |
| Conversations.DeleteIsExact | meinchat/services/message_service.py:748-783 | after any run a message can be deleted exactly by its sender; then that one message is gone and every other message and every counter stay |
| MessageServices.MessageService.StartOrGet | meinchat/services/conversation_service.py:35-46 | the live tables after the call are those of the specification |
| MessageServices.MessageService.Deliver | meinchat/services/message_service.py:346-353 | one row and one more unread for the peer |
| MessageServices.MessageService.SendText | meinchat/services/message_service.py:290-359 | checks in order (conversation, membership, body), then delivers the stripped body; an error leaves everything alone |
| MessageServices.MessageService.SendAttachment | meinchat/services/message_service.py:564-638 | the same with an optional caption and the verdict of the attachment pipeline |
| MessageServices.MessageService.PostSystemMessage | meinchat/services/message_service.py:703-744 | system rows skip the membership and body checks and still count as unread |
| MessageServices.MessageService.MarkRead | meinchat/services/message_service.py:375-384 | only a member can clear, only the own slot, and it is cleared: the state of `MarkReadIsExact` |
| MessageServices.MessageService.DeleteMessage | meinchat/services/message_service.py:748-783 | only the sender's own existing message goes, and no counter changes |
| MessageServices.MessageService.UnreadTotal | meinchat/services/push_notification_hook.py:125-132 | the summing loop returns the unread history of the whole inbox |
| Rooms.CreateRoomIsExact | meinchat/services/room_service.py:64-101 | the members are the creator and the listed users, once each, the only admin is the creator, and all counters agree with the history |
| Rooms.InviteIsExact | meinchat/services/room_service.py:103-119 | only members invite; somebody new comes in last as a plain member with nothing to read, and a member invited again changes nothing |
| Rooms.RemoveMemberIsExact | meinchat/services/room_service.py:121-138 | a target goes exactly when it is in the room and asks itself or an admin does; then it is no member any more, and every other row keeps its place, role and counter; and which error otherwise |
| Rooms.SendRoomTextIsExact | meinchat/services/message_service.py:437-511 | a post goes out exactly for a member with an acceptable body; one more unread for every other member and nothing else |
| Rooms.MarkRoomReadIsExact | meinchat/services/message_service.py:526-537 | reading works exactly for members and clears the reader's counter and no other |
| Rooms.RoomInvAlways | meinchat/services/room_service.py:103-138 | over every run: one row per user, exact counters, no admin but the creator |
| Rooms.RoomUnreadIsHistory | meinchat/services/message_service.py:495-537 | a member's counter is the number of messages others posted since the later of the current join and the last read, through invites, removals and re-joins |
| Rooms.OnlyTheCreatorIsEverAdmin | meinchat/services/room_service.py:121-138 | over every run nobody but the creator is ever an admin |
| Rooms.StepWithoutAdmin | meinchat/services/room_service.py:121-134 | in a room without an admin a step makes no admin and removes nobody but the actor |
| Rooms.AuthorityNeverReturns | meinchat/services/room_service.py:103-138 | once no admin is left there never is one again, even if the creator is invited back, and every later departure is the member's own |
| Rooms.CreatorGoneMeansNoAdmin | meinchat/services/room_service.py:121-138 | a room its creator has left has no admin |
| RoomServices.RoomService.CreateRoom | meinchat/services/room_service.py:64-101 | the loop adds exactly the specified rows, and a room pinned to encryption has no bot and only keyed members |
| RoomServices.RoomService.Invite | meinchat/services/room_service.py:103-119 | only a member can invite, a repeat invite changes nothing, no pinned protocol changes |
| RoomServices.RoomService.RemoveMember | meinchat/services/room_service.py:121-134 | errors in order (room, actor, authority, target); otherwise exactly the target's row goes, as `RemoveMemberIsExact` says of the specified room |
| RoomServices.RoomService.Leave | meinchat/services/room_service.py:136-138 | leaving is removing oneself, and works exactly for members |
| RoomServices.RoomService.SendRoomText | meinchat/services/message_service.py:437-511 | the loop gives everyone but the sender one more unread |
| RoomServices.RoomService.MarkRoomRead | meinchat/services/message_service.py:526-537 | only the reader's own counter is cleared |
| RoomServices.InviteMayBreakThePin | meinchat/services/room_service.py:103-119 | after an invitation everyone still fits encryption exactly when nobody new came or the newcomer fits |
| RoomServices.InviteBreaksThePin | meinchat/services/room_service.py:103-119 | a room pinned to encryption at its creation, and an invitation after which it does not fit it any more |
| RoomServices.PinFitsEverybody | meinchat/services/room_service.py:64-101 | a room pinned to encryption at its creation has no bot and only keyed members |
| Common.DedupePreservingOrder | meinchat/services/room_service.py:214-221 | the loop computes the distinct users in order of first occurrence |
| Common.DedupeIsDistinct | meinchat/services/room_service.py:214-221 | every element once, none lost and none added |
| Common.DedupeKeepsOrder | meinchat/services/room_service.py:214-221 | elements come in the order of their first occurrences |
| Protocols.SelectIsExact | meinchat/services/room_protocol.py:47-79 | encryption is picked exactly when it is allowed, nobody is a bot and everybody has a key; otherwise plain |
| Protocols.SelectIgnoresOrder | meinchat/services/room_protocol.py:47-79 | order and repetition of the members do not matter |
| Protocols.MoreMembersOnlyDowngrade | meinchat/services/room_protocol.py:47-79 | adding members can only take encryption away |
| Protocols.NegotiateIsExact | meinchat/routes.py:379-420 | when the 1:1 negotiation answers encrypted, when plain, and that it answers nothing else |
| Protocols.RefusalsAreExact | meinchat/routes.py:379-420 | when the negotiation refuses, and as what; an absent list is never refused |
| Protocols.EmptyRegistryMeansPlain | meinchat/services/room_protocol.py:47-79 | with an empty registry every room is plain and only plain can be negotiated |
| Protocols.PickersAgreeExactly | meinchat/routes.py:379-420 | for two people who are not bots, whenever the negotiation succeeds: the exact condition under which both pickers give the same answer |
| Protocols.PickersCanDisagree | meinchat/routes.py:379-420 | a creator without a key and a peer with one: the negotiation answers encrypted, the selector plain |
| Protocols.PickersAgreeForKeyedCreator | meinchat/services/room_protocol.py:47-74 | they agree for a creator with a key and an explicit list |
| Ledger.SumWithout | meinchat/services/token_transfer_service.py:71-96 | the sum of all balances does not depend on the order of summing |
| Ledger.MoveMovesTotal | meinchat/services/token_transfer_service.py:71-96 | one movement changes the total by its delta and nobody else's balance |
| Ledger.CreditAndDebitAreExact | meinchat/services/token_transfer_service.py:71-96 | a credit always goes through, a debit exactly when the balance covers it; either moves that one balance by the amount and leaves one entry |
| WidgetMeter.PayingGuest | meinchat/services/widget_room_meter.py:163-167 | the payer is the first guest among the members, and there is none only when no member is a guest |
| WidgetMeter.GuestMemberId | meinchat/services/widget_room_meter.py:163-167 | the loop finds the first guest |
| WidgetMeter.WidgetRoomMeter.GuardSend | meinchat/services/widget_room_meter.py:63-78 | refuses exactly a guest without tokens in a widget room while the economy is on |
| WidgetMeter.WidgetRoomChargeHook.OnSent | meinchat/services/widget_room_meter.py:112-161 | charges the clamped price to the payer and nobody else; the ledger never has to refuse |
| WidgetMeter.ChargeIsExact | meinchat/services/widget_room_meter.py:120-161 | in a widget room the first guest pays the rate for each whitespace-separated word of the body, when that guest wrote it or answers are charged; the balance stops at zero and nobody else's moves |
| WidgetMeter.OtherwiseFree | meinchat/services/widget_room_meter.py:120-148 | without the economy, a positive rate, a widget room, a readable body or a guest, nothing is charged |
| WidgetMeter.ChargeTakesPrice | meinchat/services/widget_room_meter.py:149-161 | one charge leaves the larger of zero and balance minus price |
| WidgetMeter.HooksTakeThePrice | meinchat/services/message_service.py:260-273 | however question and answers nest, the guest pays for every billed word once and the balance stops at zero |
| WidgetMeter.HooksTakeAll | meinchat/services/message_service.py:260-273 | the same over any sequence of exchanges: max(0, B - cost * words) |
| WidgetMeter.AdmittedSendCosts | meinchat/routes.py:1596-1604 | an admitted send of the paying guest strictly lowers that guest's balance, whatever it triggers; without answers it does so for the paying guest only |
| WidgetMeter.GuestSendIsExact | meinchat/routes.py:1596-1604 | gate and charge together: with any positive balance a guest's text goes out and costs its words, down to zero; without one it is refused and nothing moves |
| WidgetMeter.OnlyGuestsAreGated | meinchat/services/widget_room_meter.py:73-78 | the gate stops nobody but guests in widget rooms with the economy on |
| WidgetMeter.AtMostBalanceSends | meinchat/routes.py:1596-1604 | between credits a guest with balance B gets at most B sends past the gate in the rooms that guest pays for, whatever anyone else sends |
| GuestTokens.SetBalanceIsExact | meinchat/services/guest_token_admin_service.py:65-91 | a non-negative target is always reached exactly and moves nobody else; a negative one never is |
| GuestTokens.OneGuestIsExact | meinchat/services/guest_token_admin_service.py:49-91 | top-up and reset of one guest: when each works, which error comes first, and that exactly that balance is raised by the amount or becomes the target |
| GuestTokens.BulkIsExact | meinchat/services/guest_token_admin_service.py:94-110 | the bulk operations reach every session guest once and nobody else, or nobody at all when one of them is no longer a guest |
| GuestTokens.BulkRefusals | meinchat/services/guest_token_admin_service.py:94-110 | a bulk request fails for a bad number before it looks at any guest, and otherwise exactly for a guest that is none |
| GuestTokens.BulkTwice | meinchat/services/guest_token_admin_service.py:94-110 | topping everyone up twice comes to the same balances as once with the sum, and of two resets the last counts |
| GuestTokens.FailureSticks | meinchat/services/guest_token_admin_service.py:94-101 | a failure in the middle of a bulk top-up is the outcome of the whole request |
| GuestTokens.ResetFailureSticks | meinchat/services/guest_token_admin_service.py:103-110 | the same for a bulk reset |
| GuestTokenAdmin.GuestTokenAdminService.TopUp | meinchat/services/guest_token_admin_service.py:49-63 | credits an existing guest a positive amount, or changes nothing and says why |
| GuestTokenAdmin.GuestTokenAdminService.Reset | meinchat/services/guest_token_admin_service.py:65-91 | credits or debits the signed difference; the result is the target |
| GuestTokenAdmin.GuestTokenAdminService.TopUpAll | meinchat/services/guest_token_admin_service.py:94-101 | the loop over the distinct guests, all or nothing |
| GuestTokenAdmin.GuestTokenAdminService.ResetAll | meinchat/services/guest_token_admin_service.py:103-110 | the same for resets |
| Transfers.TransferCheck | meinchat/services/token_transfer_service.py:54-75 | a transfer that passes the checks has a positive whole amount, a visible target other than the sender, and cover |
| Transfers.TransferGoesThrough | meinchat/services/token_transfer_service.py:54-84 | exactly when a transfer goes through, exactly which error it ends with otherwise, and that a failed one changes nothing |
| Transfers.TransferIsExact | meinchat/services/token_transfer_service.py:71-120 | a transfer moves exactly the amount from sender to target and nobody else's balance, leaves one record and one system message in the conversation of the two, and its receipt names the record, the amount and what the sender has left |
| Transfers.TransferKeepsLaw | meinchat/services/token_transfer_service.py:54-120 | a transfer, successful or not, keeps the ledger law |
| Transfers.LedgerLawHolds | meinchat/services/token_transfer_service.py:54-120 | over any run of grants, transfers, charged exchanges, top-ups, resets and chat: no balance is negative, the total is what non-transfer movements made it, and each balance is the user's non-transfer net plus received minus sent records |
| Transfers.OtherStepsAreExact | meinchat/services/guest_token_admin_service.py:49-110 | what the steps of a run do to any balance: grants, top-ups and resets of one guest, and charged exchanges |
| Transfers.BulkStepsAreExact | meinchat/services/guest_token_admin_service.py:94-110 | and the bulk requests: every session guest, or nobody when the number is bad or one is no guest |
| Transfers.EveryRecordAnnouncedOnce | meinchat/services/token_transfer_service.py:97-120 | each record has exactly one system message, from its sender, in the one conversation of the two parties, for ever |
| TokenTransferServices.TokenTransferService.Transfer | meinchat/services/token_transfer_service.py:45-120 | debit, credit, record and message in sequence end in the specified state, or nothing changes |
| WidgetSessions.SiteAlwaysSound | meinchat/models/guest_session.py:20-29 | over every run: a session's linked room exists, was created by its guest for that widget; balances are never negative; ids are never reused |
| WidgetSessions.DeleteRoomsKeepsInv | meinchat/models/guest_session.py:25-29 | deleting rooms nulls their links, so no session ever points to a missing room |
| WidgetSessions.PublicStartSucceeds | meinchat/services/widget_start_service.py:158-190 | a public start succeeds exactly when the visitor returns to a live session or gives a name to an all-bot widget; a failing one changes nothing |
| WidgetSessions.PublicErrorsAreExact | meinchat/services/widget_start_service.py:158-190 | which error a public start ends with: a missing name, the first unknown member, a human member, no nickname, in this order |
| WidgetSessions.ReuseIsSafe | meinchat/services/widget_start_service.py:192-225 | coming back changes no row and no balance, and leads to an existing room of the same guest and widget |
| WidgetSessions.ReuseIsExact | meinchat/services/widget_start_service.py:192-225 | after any run a presented credential is honoured exactly when it is a guest's with a session of this widget whose room still exists, and it leads to that room |
| WidgetSessions.OneSessionAlways | meinchat/services/widget_start_service.py:264-274 | over every run a guest never has two sessions |
| WidgetSessions.LoggedInStartIsExact | meinchat/services/widget_start_service.py:134-156 | works exactly for a named caller and known members, with the error otherwise; opens one room of this widget that the caller created and administers, with exactly the caller and the members, and touches nothing else |
| WidgetSessions.FreshStartIsExact | meinchat/services/widget_start_service.py:158-190 | a fresh start gives the new guest exactly the budget and nobody else anything; the guest pays for a room otherwise full of bots; presenting the guest leads straight back without another grant |
| WidgetSessions.FreshStartRows | meinchat/services/widget_start_service.py:158-190 | a fresh start leaves one new guest, one room of the widget with exactly the guest and the configured members, one session of the guest on it, and every other row as it was |
| WidgetSessions.ResolveIsExact | meinchat/services/widget_start_service.py:238-245 | all nicknames resolve, in order, exactly when all are known |
| WidgetSessions.FirstUnknownDecides | meinchat/services/widget_start_service.py:238-245 | the first unknown nickname is the one reported |
| WidgetSessions.FirstHuman | meinchat/services/widget_start_service.py:247-250 | reports a member that is not a known bot exactly when there is one |
| WidgetSessions.FindForWidget | meinchat/repositories/guest_session_repository.py:31-42 | a session of this guest for this widget, or none exists |
| WidgetSessions.GrantsMatchStarts | meinchat/services/widget_start_service.py:227-234 | over any run the initial grants in the ledger are exactly those of the fresh economy-on starts, in order, and no guest gets a second one |
| WidgetSessions.TotalGranted | meinchat/services/widget_start_service.py:227-234 | with a fixed amount, everything ever granted is that amount times the fresh economy-on starts |
| WidgetSessions.SessionsLeftAreExact | meinchat/services/session_cleanup_service.py:95-118 | the sessions left are exactly everybody else's, each with its link unless its room was one of those deleted |
| WidgetSessions.WipeUserIsExact | meinchat/services/session_cleanup_service.py:87-118 | exactly the user's conversations, the rooms the user is in or created, and the user's sessions go; every other row stays, and a session loses its link exactly with its room |
| WidgetSessions.ClearAllLeavesNothing | meinchat/services/session_cleanup_service.py:52-69 | no session remains, nor any conversation or room of those guests; everything else stays; no balance moves; a second run finds nothing |
| WidgetSessions.ResetBalanceIsExact | meinchat/routes.py:634-663 | the cleanup's reset ends at any non-negative target and fails for a negative one |
| WidgetSessions.ResetNeverTakesGuestPath | meinchat/routes.py:644-663 | after the wipe the guest path of the reset always reports an unknown guest |
| WidgetSessions.ClearUserIsExact | meinchat/services/session_cleanup_service.py:71-85 | works exactly for non-negative targets: nothing of the user is left, everybody else's conversations, rooms and sessions stay, the balance is the target, nobody else's moves, and clearing again removes and moves nothing |
| WidgetSessionServices.WidgetStartService.ResolveMembers | meinchat/services/widget_start_service.py:238-245 | the loop stops at the first unknown nickname |
| WidgetSessionServices.WidgetStartService.RejectHumanMembers | meinchat/services/widget_start_service.py:247-250 | the loop stops at the first member that is not a bot |
| WidgetSessionServices.WidgetStartService.StartPublic | meinchat/services/widget_start_service.py:158-190 | reuse, checks, provision, room, session and grant in this order end in the specified tables |
| WidgetSessionServices.WidgetStartService.Start | meinchat/services/widget_start_service.py:111-156 | picks the branch by the stored widget; the logged-in branch only opens a room |
| WidgetSessionServices.SessionCleanupService.DeleteConversationsFor | meinchat/services/session_cleanup_service.py:87-93 | removes the user's conversations and counts them |
| WidgetSessionServices.SessionCleanupService.CollectRoomsOf | meinchat/services/session_cleanup_service.py:99-106 | the two loops find the rooms the user is in or created, each once |
| WidgetSessionServices.SessionCleanupService.DeleteEach | meinchat/services/session_cleanup_service.py:107-108 | deleting one room after another deletes exactly those and nulls exactly their links |
| WidgetSessionServices.SessionCleanupService.DeleteRoomsFor | meinchat/services/session_cleanup_service.py:95-108 | and the count is the number of rows that are gone |
| WidgetSessionServices.SessionCleanupService.DeleteGuestSessionsFor | meinchat/services/session_cleanup_service.py:110-118 | removes the user's sessions and counts them |
| WidgetSessionServices.SessionCleanupService.ClearAllGuestSessions | meinchat/services/session_cleanup_service.py:52-69 | the accumulated counts are exactly the rows removed, although guests share rooms and conversations |
| WidgetSessionServices.SessionCleanupService.ClearUserSessions | meinchat/services/session_cleanup_service.py:71-85 | wipe and reset together, or nothing when the reset fails |
| Slugs.AcceptedIsCleanUnlessNewline | meinchat/services/slug_validator.py:25-48 | an accepted nickname consists of slug characters exactly when it does not end in a newline |
| Slugs.ValidatorIsExact | meinchat/services/slug_validator.py:25-48 | what is accepted, character by character: length, first letter, alphabet, dashes, reserved words, and the newline that may stand last; and which error otherwise |
| Slugs.NewlineIsAccepted | meinchat/services/slug_validator.py:9 | a concrete nickname with a final newline passes |
| Slugs.SecondSubstitutionIsIdle | meinchat/services/guest_session_service.py:112-114 | after the first substitution and the strip the second one changes nothing |
| Slugs.StemIsGood | meinchat/services/guest_session_service.py:105-117 | for every name and lower-casing the stem has 1 to 16 characters, starts with a letter, and has no double, leading or trailing dash |
| Slugs.GeneratedNicknameIsValid | meinchat/services/guest_session_service.py:88-117 | stem, dash and any 8 hex digits always pass the validator |
| Slugs.StemKeepsTheName | meinchat/services/guest_session_service.py:105-117 | the stem's letters and digits are the first of the lower-cased name's, in order, behind "guest" where the name does not start with a letter; a name of up to ten characters loses none |
| Slugs.CandidatesDiffer | meinchat/services/guest_session_service.py:88-102 | different random suffixes give different candidates, and every candidate shows the stem |
| Slugs.SlugifyIsIdempotent | meinchat/services/guest_session_service.py:105-117 | slugging a stem again gives the same stem when lower-casing fixes ASCII lower-case text |
| Nicknames.DirectoryAlwaysSound | meinchat/models/user_nickname.py:11-32 | over any run: one row per user, one per lower-cased slug, only valid nicknames, ban dates exactly on banned rows |
| Nicknames.SetNicknameIsExact | meinchat/services/nickname_service.py:38-71 | a nickname can be had exactly when it is valid and whoever else holds the slug was banned more than the grace period ago; then the caller holds it with the old flags, or none on a first row, the holder's row is gone, every other row stays |
| Nicknames.RefusalsAreExact | meinchat/services/nickname_service.py:38-58 | when a nickname is refused as invalid, as taken and as banned |
| Nicknames.CardIsExact | meinchat/services/nickname_service.py:88-96 | exactly the rows neither banned nor hidden have a card, under any spelling |
| Nicknames.BansAreExact | meinchat/services/nickname_service.py:100-114 | bans and their lifting work exactly for users with a row, change its ban and date and nothing else of it, and no other row |
| Nicknames.UnbanUndoesBan | meinchat/services/nickname_service.py:100-114 | lifting a ban restores the directory exactly when there was no earlier ban |
| Nicknames.StepKeepsBan | meinchat/services/nickname_service.py:47-57 | no act within the grace period but an unban ends a ban |
| Nicknames.BanHoldsThroughGrace | meinchat/services/nickname_service.py:38-124 | a banned user keeps a row, stays banned and is on no card at every time up to the ban plus the grace period, whatever anyone renames or claims, unless unbanned |
| Nicknames.RowsGoOnlyByClaim | meinchat/services/nickname_service.py:47-57 | a row goes exactly when somebody else validly claims its slug more than the grace period after its ban |
| NicknameServices.NicknameService.SetNickname | meinchat/services/nickname_service.py:38-71 | validate, clear the way or refuse, rename or insert: the specified table and result |
| NicknameServices.NicknameService.Ban | meinchat/services/nickname_service.py:100-106 | sets flag and date on an existing row |
| NicknameServices.NicknameService.Unban | meinchat/services/nickname_service.py:108-114 | clears both |
| NicknameServices.GivesUpIffAllTaken | meinchat/services/guest_session_service.py:93-102 | the attempts end as taken exactly when every candidate was taken |
| NicknameServices.SucceedsAtFirstFree | meinchat/services/guest_session_service.py:93-102 | success is the first candidate that is not taken |
| NicknameServices.FailureIsTakenOrBanned | meinchat/services/guest_session_service.py:88-102 | a generated nickname is never refused as invalid, and failure leaves the directory alone |
| NicknameServices.GuestSessionService.AssignUniqueNickname | meinchat/services/guest_session_service.py:88-102 | the loop of five attempts, retrying only a taken nickname |
| Retention.CutUndoesPublish | meinchat/services/retention_service.py:41-51 | cutting the public URL of a stored path gives the path back exactly when what stands before it lacks the marker |
| Retention.FindMarker | meinchat/services/retention_service.py:50 | the first occurrence of the marker, or there is none |
| Retention.SlashesGo | meinchat/services/retention_service.py:51 | a URL without the marker gives itself without its leading slashes |
| Retention.StoragePathIsExact | meinchat/services/retention_service.py:41-51 | the storage path of any URL: none for no URL, from the first marker on where there is one, else without the leading slashes |
| Retention.PruneIsExact | meinchat/services/retention_service.py:72-89 | keeps exactly the rows sent at or after now minus the days, reports the ids of the others, never skips a candidate, and fails only for a negative setting |
| Retention.PruneKeepsTheYoung | meinchat/services/retention_service.py:72-89 | in microseconds: the rows that stay are those sent no longer ago than the configured days, and the report names and counts exactly the others |
| Retention.AttachmentsAreExact | meinchat/services/retention_service.py:91-118 | the attachment pass touches no row and no blob but those behind the URLs of rows too old; without failures it takes all of those; its report counts the failed calls |
| Retention.NegativeSettingFails | meinchat/services/retention_service.py:72-95 | a negative setting makes both passes fail and change nothing |
| Retention.PolicyAgreesWithQuery | meinchat/services/retention_policy.py:57-59 | the policy's second look agrees with the query |
| Retention.PolicyIsExact | meinchat/services/retention_policy.py:57-59 | the policy lets go of exactly the rows sent longer ago than the configured days, in microseconds |
| Retention.DeletingKeepsTheRest | meinchat/repositories/message_repository.py:62-77 | deleting by id removes exactly the listed rows and reports exactly those |
| Retention.PruneTwice | meinchat/services/retention_service.py:72-89 | pruning at two instants is pruning at the later one; a second run deletes nothing |
| Retention.SweepIsExact | meinchat/services/retention_service.py:91-118 | a sweep removes every listed blob unless every call for it failed, touches nothing else, and counts the failed calls |
| Retention.NightlyJobIsExact | meinchat/scheduler.py:43-47 | what the two passes together leave of rows and blobs |
| Retention.RowsOutliveNoBlob | meinchat/services/retention_service.py:72-130 | a row that survives the job keeps all its blobs: every row that lost one is deleted, whatever fails |
| Retention.WhatTheJobLeaves | meinchat/services/retention_service.py:91-118 | without failures the blobs left are those of the rows young enough for the first pass, exactly when none is shared with an older row |
| Retention.JobOrphans | meinchat/scheduler.py:43-47 | one job adds to the orphaned blobs exactly those of the rows it deletes that its first pass did not get rid of, whatever fails, and frees none |
| Retention.NoOrphanExactlyUnlessCrossing | meinchat/services/retention_service.py:120-126 | without failures, after the job the blobs are exactly those of the remaining rows, if and only if no row with an attachment was sent between the two readings' thresholds |
| Retention.CrossingRowLeavesItsBlob | meinchat/services/retention_service.py:120-126 | a concrete row that the first reading spares and the second deletes: its blob stays |
| Retention.SameInstantLeavesNoOrphan | meinchat/services/retention_service.py:72-130 | if both passes read the same instant, the blobs left are exactly those of the surviving rows, unless one was shared |
| Retention.NoRowEverDangles | meinchat/services/retention_service.py:72-130 | over any run of arrivals and nightly jobs, with any failures and settings, every row in the table has all its blobs; new messages bring new ids and paths, and the clock does not go back within a job |
| Retention.OrphansAreWhatJobsLeft | meinchat/scheduler.py:43-47 | over any run the orphaned blobs are exactly what the jobs left behind, job by job, with any failures and settings; new messages bring paths not in use |
| Retention.NoOrphanIffEveryJobIsClean | meinchat/scheduler.py:43-47 | after any run the blobs are exactly those of the rows, if and only if no job of the run left anything |
| RetentionServices.RetentionService.PruneMessages | meinchat/services/retention_service.py:72-89 | the live table and the report are the specified ones |
| RetentionServices.RetentionService.DeleteBlobs | meinchat/services/retention_service.py:98-117 | the inner loop over one row's attachments continues the sweep |
| RetentionServices.RetentionService.PruneAttachments | meinchat/services/retention_service.py:91-118 | the outer loop completes it, counting failures and never raising |
| RetentionServices.RetentionService.RunPrune | meinchat/scheduler.py:20-48 | attachments first, then rows |
| MessagePages.PageIsExact | meinchat/repositories/message_repository.py:38-44 | newest first, only older rows of the parent; what a page leaves out is older than all of it; a short page leaves nothing out |
| MessagePages.DeletedPivotStartsOver | meinchat/repositories/message_repository.py:40-43 | a cursor whose message is gone starts again at the newest |
| MessagePages.TwinIsSkipped | meinchat/repositories/message_repository.py:43 | a row sent at the same instant as the cursor is never on the page behind it |
| MessagePages.WalkIsComplete | meinchat/repositories/message_repository.py:38-44 | a finished walk lists, newest first and once each, every message of the start that stayed and none that came later, whatever newer messages arrive and whatever but the cursor is deleted meanwhile; send instants are distinct |
| MessagePages.WalkEnds | meinchat/repositories/message_repository.py:38-44 | a walk never asks more often than there were messages at the start, plus once |
| MessagePages.WalkIsTheStart | meinchat/repositories/message_repository.py:38-44 | without deletions the walk is exactly the messages of the start, newest first |

## Left out

- RedisListener.RedisEventBus.Listen: the registry code that the Redis bus repeats word for word is shared with the in-process bus, and the sessions the connections go through are given, so it ends after the last one; when the thread notices `stop` is not modelled.
- RedisDelivery.SamePublishesSameMailboxes: assumes what Redis promises its connected listeners (every publish, in order) and that JSON round-trips; a dropped connection loses exactly what is published meanwhile, as `OnlyTheGapsAreLost` proves.
- RateLimit.InMemoryCounterBackend.Incr: the Redis backend is not modelled, because its expiry rests on how Redis rounds a remaining time.
- MessageServices.MessageService.SendText: bodies of other protocols are accepted or refused by a registered codec, which appears as its verdict; the shape of `meta`, the published notices and the push transport are not modelled.
- MessageServices.MessageService.SendAttachment: the attachment rows of the two image sizes are not modelled.
- MessageServices.MessageService.DeleteMessage: models 1:1 messages, for which the operation was written; deleting a room message through it, and purging the blobs of the deleted message, are not modelled.
- Conversations.DeleteIsExact: speaks of rows and counters; the blobs of the deleted message are not modelled.
- RoomServices.RoomService.CreateRoom: the room's name, its list of capabilities and renaming are not modelled.
- NicknameServices.NicknameService.SetNickname: the clock is read once where the code reads it twice, and the search and paging queries over the directory are not modelled.
- WidgetSessionServices.WidgetStartService.Start: the member list sent back to the client, session expiry dates and the minted access token are not modelled; whether a nickname could be found for the guest is a given (its search is `AssignUniqueNickname`).
- WidgetSessions.WipeUserIsExact: messages and attachments that go with a deleted conversation or room are not modelled.
- Retention.PruneIsExact: the keep-days setting is read once per pass, and dates outside the range of the date type are not modelled.
- MessagePages.PageIsExact: a negative limit, which the database refuses, is not modelled.
- Ledger.TokenService: concurrent debits of one balance are not modelled; each request is serial.
- The order in which threads acquire the bus lock and the fairness of the scheduler: every schedule is allowed, so what is stated is safety, and that a publish can always be finished and a log be drained, not that the scheduler does so.
- Contacts, contact forms, bot provisioning, the registry, the CMS reader, end-to-end attachments, image processing and the seed script: they would only add easy members.
- HTTP routing, authentication, serialisation and migrations: plumbing around the modelled services.
