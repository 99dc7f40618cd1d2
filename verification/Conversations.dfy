/** One-to-one conversations: the pair table, the message table and the two unread slots of each pair. */
module Conversations {
  import opened Common
  import opened Text

  /** A user id; ids are totally ordered, as UUIDs are. */
  type User = nat

  /** A row of the pair table; its id is its position. */
  datatype Conversation = Conversation(low: User, high: User, unreadLow: nat, unreadHigh: nat)

  /** What a row holds: a text, an image's caption, or a reference to something the system announces. */
  datatype Kind = TextKind(body: string) | ImageKind(caption: string) | SystemKind(kind: string, reference: nat)

  datatype Message = Message(id: nat, conv: nat, sender: User, kind: Kind, sentAt: int)

  /** What happened, in order: the history the counters must agree with. Deleting a row leaves it alone. */
  datatype Happening = Sent(conv: nat, sender: User, kind: Kind, id: nat) | WasRead(conv: nat, reader: User)

  datatype Chat = Chat(convs: seq<Conversation>, messages: seq<Message>, nextId: nat, log: seq<Happening>)

  datatype Error =
    | SelfConversation | ConversationNotFound | NotAMember | EmptyBody | BodyTooLong | BodyRejected | MessageNotFound

  const BODY_MAX := 4000

  const NO_CHAT := Chat([], [], 0, [])

  function OrderPair(a: User, b: User): (r: Result<(User, User), Error>)
    ensures r.Ok? <==> a != b
    ensures r.Ok? ==> r.value.0 < r.value.1 && {r.value.0, r.value.1} == {a, b}
  {
    if a == b then Err(SelfConversation) else if a < b then Ok((a, b)) else Ok((b, a))
  }

  predicate IsMember(u: User, c: Conversation) {
    u == c.low || u == c.high
  }

  function PeerOf(u: User, c: Conversation): User {
    if u == c.low then c.high else c.low
  }

  function UnreadFor(u: User, c: Conversation): nat {
    if u == c.low then c.unreadLow else c.unreadHigh
  }

  function IncrementUnreadFor(u: User, c: Conversation): Conversation {
    if u == c.low then c.(unreadLow := c.unreadLow + 1) else c.(unreadHigh := c.unreadHigh + 1)
  }

  function ClearUnreadFor(u: User, c: Conversation): Conversation {
    if u == c.low then c.(unreadLow := 0) else c.(unreadHigh := 0)
  }

  /** `find_by_pair` */
  function FindByPair(convs: seq<Conversation>, low: User, high: User): (r: Option<nat>)
    ensures r.Some? ==> r.value < |convs| && convs[r.value].low == low && convs[r.value].high == high
    ensures r.None? ==> forall k | 0 <= k < |convs| :: convs[k].low != low || convs[k].high != high
  {
    if convs == [] then None
    else
      var n := |convs| - 1;
      if convs[n].low == low && convs[n].high == high then Some(n) else FindByPair(convs[..n], low, high)
  }

  /** `start_or_get` */
  function StartOrGet(chat: Chat, a: User, b: User): (Chat, Result<nat, Error>) {
    match OrderPair(a, b)
    case Err(e) => (chat, Err(e))
    case Ok((low, high)) =>
      match FindByPair(chat.convs, low, high)
      case Some(id) => (chat, Ok(id))
      case None => (chat.(convs := chat.convs + [Conversation(low, high, 0, 0)]), Ok(|chat.convs|))
  }

  /** The common end of the three sends: a row, and one more unread for the sender's peer. */
  function Post(chat: Chat, c: nat, sender: User, kind: Kind, now: int): Chat
    requires c < |chat.convs|
  {
    var conv := chat.convs[c];
    chat.(messages := chat.messages + [Message(chat.nextId, c, sender, kind, now)],
          nextId := chat.nextId + 1,
          convs := chat.convs[c := IncrementUnreadFor(PeerOf(sender, conv), conv)],
          log := chat.log + [Sent(c, sender, kind, chat.nextId)])
  }

  /** A body as the client sent it; for a non-plain protocol the registered codec decides. */
  datatype Draft = Plain(body: string) | Envelope(body: string, accepted: bool)

  /** What is stored of it. */
  function Content(draft: Draft): string {
    match draft
    case Plain(body) => Strip(body)
    case Envelope(body, _) => body
  }

  function DraftError(draft: Draft): Option<Error> {
    match draft
    case Plain(body) =>
      if Strip(body) == "" then Some(EmptyBody) else if |Strip(body)| > BODY_MAX then Some(BodyTooLong) else None
    case Envelope(_, accepted) => if accepted then None else Some(BodyRejected)
  }

  function SendText(chat: Chat, c: nat, sender: User, draft: Draft, now: int): (Chat, Result<nat, Error>) {
    if c >= |chat.convs| then (chat, Err(ConversationNotFound))
    else if !IsMember(sender, chat.convs[c]) then (chat, Err(NotAMember))
    else
      match DraftError(draft)
      case Some(e) => (chat, Err(e))
      case None => (Post(chat, c, sender, TextKind(Content(draft)), now), Ok(chat.nextId))
  }

  /** An image may come without a caption; `decodes` is the verdict of the attachment pipeline. */
  function SendAttachment(chat: Chat, c: nat, sender: User, body: string, decodes: bool, now: int)
    : (Chat, Result<nat, Error>)
  {
    if c >= |chat.convs| then (chat, Err(ConversationNotFound))
    else if !IsMember(sender, chat.convs[c]) then (chat, Err(NotAMember))
    else if |Strip(body)| > BODY_MAX then (chat, Err(BodyTooLong))
    else if !decodes then (chat, Err(BodyRejected))
    else (Post(chat, c, sender, ImageKind(Strip(body)), now), Ok(chat.nextId))
  }

  /** System rows bypass the membership and body checks. */
  function PostSystemMessage(chat: Chat, c: nat, sender: User, kind: string, reference: nat, now: int)
    : (Chat, Result<nat, Error>)
  {
    if c >= |chat.convs| then (chat, Err(ConversationNotFound))
    else (Post(chat, c, sender, SystemKind(kind, reference), now), Ok(chat.nextId))
  }

  function MarkRead(chat: Chat, c: nat, reader: User): (Chat, Result<nat, Error>) {
    if c >= |chat.convs| then (chat, Err(ConversationNotFound))
    else if !IsMember(reader, chat.convs[c]) then (chat, Err(NotAMember))
    else (chat.(convs := chat.convs[c := ClearUnreadFor(reader, chat.convs[c])],
                log := chat.log + [WasRead(c, reader)]), Ok(c))
  }

  function FindMessage(messages: seq<Message>, id: nat): (r: Option<Message>)
    ensures r.Some? ==> r.value in messages && r.value.id == id
    ensures r.None? ==> forall k | 0 <= k < |messages| :: messages[k].id != id
  {
    if messages == [] then None
    else if messages[0].id == id then Some(messages[0])
    else FindMessage(messages[1..], id)
  }

  function Without(messages: seq<Message>, id: nat): seq<Message> {
    if messages == [] then []
    else (if messages[0].id == id then [] else [messages[0]]) + Without(messages[1..], id)
  }

  /** Only the author may delete, and a missing row looks the same as somebody else's. */
  function DeleteMessage(chat: Chat, id: nat, caller: User): (Chat, Result<nat, Error>) {
    match FindMessage(chat.messages, id)
    case None => (chat, Err(MessageNotFound))
    case Some(m) =>
      if m.sender != caller then (chat, Err(MessageNotFound))
      else (chat.(messages := Without(chat.messages, id)), Ok(id))
  }

  function NotOlder(messages: seq<Message>, threshold: int): seq<Message> {
    if messages == [] then []
    else (if messages[0].sentAt < threshold then [] else [messages[0]]) + NotOlder(messages[1..], threshold)
  }

  /** The retention prune, as far as this table is concerned. */
  function Prune(chat: Chat, threshold: int): (Chat, Result<nat, Error>) {
    (chat.(messages := NotOlder(chat.messages, threshold)), Ok(0))
  }

  datatype Op =
    | OpStart(a: User, b: User)
    | OpText(c: nat, sender: User, draft: Draft, now: int)
    | OpAttachment(c: nat, sender: User, body: string, decodes: bool, now: int)
    | OpSystem(c: nat, sender: User, kind: string, reference: nat, now: int)
    | OpRead(c: nat, reader: User)
    | OpDelete(id: nat, caller: User)
    | OpPrune(threshold: int)

  function Apply(chat: Chat, op: Op): Chat {
    match op
    case OpStart(a, b) => StartOrGet(chat, a, b).0
    case OpText(c, sender, draft, now) => SendText(chat, c, sender, draft, now).0
    case OpAttachment(c, sender, body, decodes, now) => SendAttachment(chat, c, sender, body, decodes, now).0
    case OpSystem(c, sender, kind, reference, now) => PostSystemMessage(chat, c, sender, kind, reference, now).0
    case OpRead(c, reader) => MarkRead(chat, c, reader).0
    case OpDelete(id, caller) => DeleteMessage(chat, id, caller).0
    case OpPrune(threshold) => Prune(chat, threshold).0
  }

  function Run(ops: seq<Op>): Chat {
    if ops == [] then NO_CHAT else Apply(Run(ops[..|ops| - 1]), ops[|ops| - 1])
  }

  // ---- One row per pair ------------------------------------------------------------------------------

  ghost predicate PairsOk(convs: seq<Conversation>) {
    && (forall k | 0 <= k < |convs| :: convs[k].low < convs[k].high)
    && (forall j, k | 0 <= j < k < |convs| :: convs[j].low != convs[k].low || convs[j].high != convs[k].high)
  }

  /** Whichever way round the two users are named, they get the same row, and it is the only one of the pair. */
  lemma StartOrGetIsSymmetric(chat: Chat, a: User, b: User)
    requires PairsOk(chat.convs)
    ensures StartOrGet(chat, a, b) == StartOrGet(chat, b, a)
    ensures PairsOk(StartOrGet(chat, a, b).0.convs) && chat.convs <= StartOrGet(chat, a, b).0.convs
    ensures StartOrGet(chat, a, b).1.Ok? <==> a != b
    ensures StartOrGet(chat, a, b).1.Ok? ==>
              var after, id := StartOrGet(chat, a, b).0, StartOrGet(chat, a, b).1.value;
              && id < |after.convs| && IsMember(a, after.convs[id]) && IsMember(b, after.convs[id])
              && StartOrGet(after, a, b) == (after, Ok(id))
              && forall k | 0 <= k < |after.convs| :: IsMember(a, after.convs[k]) && IsMember(b, after.convs[k]) ==> k == id
  {
  }

  // ---- Unread counters -------------------------------------------------------------------------------

  /** The moments in the history at which somebody's message to u in conversation c came in and after which u
      has not read c. A message is to whoever is the peer of its sender. */
  ghost function UnreadAt(log: seq<Happening>, convs: seq<Conversation>, c: nat, u: User): set<nat>
    requires c < |convs|
  {
    set i | 0 <= i < |log| && log[i].Sent? && log[i].conv == c && PeerOf(log[i].sender, convs[c]) == u &&
            ReadSince(log, c, u, i)
  }

  ghost predicate ReadSince(log: seq<Happening>, c: nat, u: User, i: nat) {
    forall j | i < j < |log| :: log[j] != WasRead(c, u)
  }

  lemma SentAppends(log: seq<Happening>, convs: seq<Conversation>, d: nat, sender: User, kind: Kind, id: nat, c: nat,
                    u: User)
    requires c < |convs|
    ensures UnreadAt(log + [Sent(d, sender, kind, id)], convs, c, u) ==
            UnreadAt(log, convs, c, u) + if d == c && PeerOf(sender, convs[c]) == u then {|log|} else {}
  {
    var after := log + [Sent(d, sender, kind, id)];
    assert forall i: nat :: ReadSince(after, c, u, i) == ReadSince(log, c, u, i) by {
      forall i: nat
        ensures ReadSince(after, c, u, i) == ReadSince(log, c, u, i)
      {
        if ReadSince(after, c, u, i) {
          assert forall j | i < j < |log| :: after[j] == log[j];
        }
      }
    }
  }

  lemma ReadClears(log: seq<Happening>, convs: seq<Conversation>, d: nat, reader: User, c: nat, u: User)
    requires c < |convs|
    ensures UnreadAt(log + [WasRead(d, reader)], convs, c, u) ==
            if d == c && reader == u then {} else UnreadAt(log, convs, c, u)
  {
    var after := log + [WasRead(d, reader)];
    if d == c && reader == u {
      forall i: nat | i < |log|
        ensures !ReadSince(after, c, u, i)
      {
        assert after[|log|] == WasRead(c, u);
      }
    } else {
      forall i: nat
        ensures ReadSince(after, c, u, i) == ReadSince(log, c, u, i)
      {
        if ReadSince(after, c, u, i) {
          assert forall j | i < j < |log| :: after[j] == log[j];
        }
      }
    }
  }

  ghost predicate SlotsOk(chat: Chat, c: nat)
    requires c < |chat.convs|
  {
    && chat.convs[c].unreadLow == |UnreadAt(chat.log, chat.convs, c, chat.convs[c].low)|
    && chat.convs[c].unreadHigh == |UnreadAt(chat.log, chat.convs, c, chat.convs[c].high)|
  }

  ghost predicate LogOk(chat: Chat) {
    forall i | 0 <= i < |chat.log| :: chat.log[i].conv < |chat.convs|
  }

  ghost predicate ChatInv(chat: Chat) {
    && PairsOk(chat.convs) && LogOk(chat)
    && (forall c | 0 <= c < |chat.convs| :: SlotsOk(chat, c))
    && (forall k | 0 <= k < |chat.messages| :: chat.messages[k].conv < |chat.convs| && chat.messages[k].id < chat.nextId)
  }

  /** Counters change, participants never do; that is all `UnreadAt` looks at. */
  lemma SamePairsSameUnread(log: seq<Happening>, before: seq<Conversation>, after: seq<Conversation>, c: nat, u: User)
    requires c < |before| <= |after| && before[c].low == after[c].low && before[c].high == after[c].high
    ensures UnreadAt(log, before, c, u) == UnreadAt(log, after, c, u)
  {
  }

  lemma UnreadAfterPost(chat: Chat, d: nat, sender: User, kind: Kind, now: int, c: nat, u: User)
    requires d < |chat.convs| && c < |chat.convs|
    ensures var after := Post(chat, d, sender, kind, now);
            |UnreadAt(after.log, after.convs, c, u)| ==
            |UnreadAt(chat.log, chat.convs, c, u)| + if d == c && PeerOf(sender, chat.convs[c]) == u then 1 else 0
  {
    var after := Post(chat, d, sender, kind, now);
    SentAppends(chat.log, chat.convs, d, sender, kind, chat.nextId, c, u);
    SamePairsSameUnread(after.log, chat.convs, after.convs, c, u);
    assert |chat.log| !in UnreadAt(chat.log, chat.convs, c, u);
  }

  lemma PostKeepsSlots(chat: Chat, d: nat, sender: User, kind: Kind, now: int, c: nat)
    requires ChatInv(chat) && d < |chat.convs| && c < |chat.convs|
    ensures SlotsOk(Post(chat, d, sender, kind, now), c)
  {
    assert SlotsOk(chat, c);
    UnreadAfterPost(chat, d, sender, kind, now, c, chat.convs[c].low);
    UnreadAfterPost(chat, d, sender, kind, now, c, chat.convs[c].high);
  }

  lemma ReadKeepsSlots(chat: Chat, d: nat, reader: User, c: nat)
    requires ChatInv(chat) && d < |chat.convs| && c < |chat.convs| && IsMember(reader, chat.convs[d])
    ensures SlotsOk(MarkRead(chat, d, reader).0, c)
  {
    var after := MarkRead(chat, d, reader).0;
    assert SlotsOk(chat, c);
    var low, high := chat.convs[c].low, chat.convs[c].high;
    ReadClears(chat.log, chat.convs, d, reader, c, low);
    ReadClears(chat.log, chat.convs, d, reader, c, high);
    SamePairsSameUnread(after.log, chat.convs, after.convs, c, low);
    SamePairsSameUnread(after.log, chat.convs, after.convs, c, high);
  }

  lemma StartKeepsInv(chat: Chat, a: User, b: User)
    requires ChatInv(chat)
    ensures ChatInv(StartOrGet(chat, a, b).0)
  {
    var after := StartOrGet(chat, a, b).0;
    StartOrGetIsSymmetric(chat, a, b);
    forall c | 0 <= c < |after.convs|
      ensures SlotsOk(after, c)
    {
      if c < |chat.convs| {
        assert SlotsOk(chat, c);
        SamePairsSameUnread(chat.log, chat.convs, after.convs, c, chat.convs[c].low);
        SamePairsSameUnread(chat.log, chat.convs, after.convs, c, chat.convs[c].high);
      } else {
        assert UnreadAt(after.log, after.convs, c, after.convs[c].low) == {};
        assert UnreadAt(after.log, after.convs, c, after.convs[c].high) == {};
      }
    }
  }

  lemma PostKeepsInv(chat: Chat, d: nat, sender: User, kind: Kind, now: int)
    requires ChatInv(chat) && d < |chat.convs|
    ensures ChatInv(Post(chat, d, sender, kind, now))
  {
    forall c | 0 <= c < |chat.convs|
      ensures SlotsOk(Post(chat, d, sender, kind, now), c)
    {
      PostKeepsSlots(chat, d, sender, kind, now, c);
    }
  }

  lemma ReadKeepsInv(chat: Chat, d: nat, reader: User)
    requires ChatInv(chat) && d < |chat.convs| && IsMember(reader, chat.convs[d])
    ensures ChatInv(MarkRead(chat, d, reader).0)
  {
    forall c | 0 <= c < |chat.convs|
      ensures SlotsOk(MarkRead(chat, d, reader).0, c)
    {
      ReadKeepsSlots(chat, d, reader, c);
    }
  }

  lemma {:induction false} WithoutKeeps(messages: seq<Message>, id: nat)
    ensures forall m :: m in Without(messages, id) <==> m in messages && m.id != id
  {
    if messages != [] {
      WithoutKeeps(messages[1..], id);
    }
  }

  lemma {:induction false} NotOlderKeeps(messages: seq<Message>, threshold: int)
    ensures forall m :: m in NotOlder(messages, threshold) <==> m in messages && m.sentAt >= threshold
  {
    if messages != [] {
      NotOlderKeeps(messages[1..], threshold);
    }
  }

  lemma FewerMessagesKeepInv(chat: Chat, messages: seq<Message>)
    requires ChatInv(chat) && forall m | m in messages :: m in chat.messages
    ensures ChatInv(chat.(messages := messages))
  {
    var after := chat.(messages := messages);
    assert forall c | 0 <= c < |chat.convs| :: SlotsOk(chat, c) == SlotsOk(after, c);
    forall k | 0 <= k < |messages|
      ensures messages[k].conv < |chat.convs| && messages[k].id < chat.nextId
    {
      assert messages[k] in chat.messages;
    }
  }

  lemma StepKeepsInv(chat: Chat, op: Op)
    requires ChatInv(chat)
    ensures ChatInv(Apply(chat, op))
  {
    match op
    case OpStart(a, b) => StartKeepsInv(chat, a, b);
    case OpText(c, sender, draft, now) =>
      if c < |chat.convs| { PostKeepsInv(chat, c, sender, TextKind(Content(draft)), now); }
    case OpAttachment(c, sender, body, decodes, now) =>
      if c < |chat.convs| { PostKeepsInv(chat, c, sender, ImageKind(Strip(body)), now); }
    case OpSystem(c, sender, kind, reference, now) =>
      if c < |chat.convs| { PostKeepsInv(chat, c, sender, SystemKind(kind, reference), now); }
    case OpRead(c, reader) => if c < |chat.convs| && IsMember(reader, chat.convs[c]) { ReadKeepsInv(chat, c, reader); }
    case OpDelete(id, caller) =>
      WithoutKeeps(chat.messages, id);
      FewerMessagesKeepInv(chat, Without(chat.messages, id));
    case OpPrune(threshold) =>
      NotOlderKeeps(chat.messages, threshold);
      FewerMessagesKeepInv(chat, NotOlder(chat.messages, threshold));
  }

  lemma {:induction false} RunKeepsInv(ops: seq<Op>)
    ensures ChatInv(Run(ops))
  {
    if ops != [] {
      RunKeepsInv(ops[..|ops| - 1]);
      StepKeepsInv(Run(ops[..|ops| - 1]), ops[|ops| - 1]);
    }
  }

  /** After any run of sends of every kind, reads, deletions and prunes, a participant's unread slot is the
      number of messages the other side sent since that participant's last read, deleted ones included. */
  lemma UnreadIsHistory(ops: seq<Op>, c: nat, u: User)
    requires c < |Run(ops).convs| && IsMember(u, Run(ops).convs[c])
    ensures UnreadFor(u, Run(ops).convs[c]) == |UnreadAt(Run(ops).log, Run(ops).convs, c, u)|
  {
    RunKeepsInv(ops);
    assert SlotsOk(Run(ops), c);
  }

  // ---- The push badge --------------------------------------------------------------------------------

  /** `_unread_total` over the user's inbox. */
  function UnreadTotal(convs: seq<Conversation>, u: User): nat {
    if convs == [] then 0
    else UnreadTotal(convs[..|convs| - 1], u) +
         if IsMember(u, convs[|convs| - 1]) then UnreadFor(u, convs[|convs| - 1]) else 0
  }

  /** Every moment at which u was sent something, in a conversation of theirs, that they have not read since. */
  ghost function UnreadAnywhere(log: seq<Happening>, convs: seq<Conversation>, n: nat, u: User): set<nat>
    requires n <= |convs|
  {
    set i | 0 <= i < |log| && log[i].Sent? && log[i].conv < n && IsMember(u, convs[log[i].conv]) &&
            PeerOf(log[i].sender, convs[log[i].conv]) == u && ReadSince(log, log[i].conv, u, i)
  }

  lemma OneMoreConversation(log: seq<Happening>, convs: seq<Conversation>, c: nat, u: User)
    requires c < |convs|
    ensures |UnreadAnywhere(log, convs, c + 1, u)| ==
            |UnreadAnywhere(log, convs, c, u)| + if IsMember(u, convs[c]) then |UnreadAt(log, convs, c, u)| else 0
  {
    var here := if IsMember(u, convs[c]) then UnreadAt(log, convs, c, u) else {};
    assert UnreadAnywhere(log, convs, c + 1, u) == UnreadAnywhere(log, convs, c, u) + here;
    assert UnreadAnywhere(log, convs, c, u) !! here;
  }

  lemma {:induction false} BadgeUpTo(chat: Chat, n: nat, u: User)
    requires ChatInv(chat) && n <= |chat.convs|
    ensures UnreadTotal(chat.convs[..n], u) == |UnreadAnywhere(chat.log, chat.convs, n, u)|
  {
    if n == 0 {
      assert UnreadAnywhere(chat.log, chat.convs, 0, u) == {};
    } else {
      BadgeUpTo(chat, n - 1, u);
      OneMoreConversation(chat.log, chat.convs, n - 1, u);
      assert SlotsOk(chat, n - 1);
      assert chat.convs[..n][..n - 1] == chat.convs[..n - 1];
    }
  }

  /** The badge is the number of messages the user was sent and has not read, over the whole inbox. */
  lemma BadgeIsHistory(ops: seq<Op>, u: User)
    ensures UnreadTotal(Run(ops).convs, u) == |UnreadAnywhere(Run(ops).log, Run(ops).convs, |Run(ops).convs|, u)|
  {
    RunKeepsInv(ops);
    BadgeUpTo(Run(ops), |Run(ops).convs|, u);
    assert Run(ops).convs[..|Run(ops).convs|] == Run(ops).convs;
  }

  // ---- What one call does ------------------------------------------------------------------------------

  /** Two different users always get a conversation: the one they have, or else one more, in which nobody has anything
      to read; no message, counter or other conversation is touched. */
  lemma StartOrGetIsExact(chat: Chat, a: User, b: User)
    requires PairsOk(chat.convs)
    ensures var (after, r) := StartOrGet(chat, a, b);
            && (r.Err? <==> a == b) && (r.Err? ==> r.error == SelfConversation && after == chat)
            && after == chat.(convs := after.convs)
            && (forall k | 0 <= k < |chat.convs| && a != b && IsMember(a, chat.convs[k]) && IsMember(b, chat.convs[k]) ::
                  r == Ok(k) && after == chat)
            && (a != b && (forall k | 0 <= k < |chat.convs| :: !(IsMember(a, chat.convs[k]) && IsMember(b, chat.convs[k]))) ==>
                  && r == Ok(|chat.convs|)
                  && after.convs == chat.convs + [Conversation(if a < b then a else b, if a < b then b else a, 0, 0)])
  {
    StartOrGetIsSymmetric(chat, a, b);
  }

  /** One more row with an id of its own, one more moment in the history, one more unread message for the peer (as
      whom a sender from outside counts the first of the two), and nothing else in any conversation. */
  ghost predicate WentOut(chat: Chat, after: Chat, c: nat, sender: User, kind: Kind, now: int, id: nat) {
    && c < |chat.convs| == |after.convs|
    && after.messages == chat.messages + [Message(id, c, sender, kind, now)]
    && (forall m | m in chat.messages :: m.id != id)
    && after.log == chat.log + [Sent(c, sender, kind, id)]
    && forall d | 0 <= d < |chat.convs| ::
         var was, conv := chat.convs[d], after.convs[d];
         && conv.low == was.low && conv.high == was.high
         && conv.unreadLow == was.unreadLow + (if d == c && sender != was.low then 1 else 0)
         && conv.unreadHigh == was.unreadHigh + (if d == c && sender == was.low then 1 else 0)
  }

  /** A text goes out exactly when the conversation exists, the sender is in it and the body has text and fits; what is
      kept is the body without the whitespace around it, and it costs the peer, and nobody else in any conversation,
      one unread message. The first check that fails decides the error. */
  lemma SendTextIsExact(chat: Chat, c: nat, sender: User, draft: Draft, now: int)
    requires ChatInv(chat)
    ensures var (after, r) := SendText(chat, c, sender, draft, now);
            var member := c < |chat.convs| && (sender == chat.convs[c].low || sender == chat.convs[c].high);
            && (r.Ok? <==> member && match draft
                                     case Plain(body) => !AllSpace(body) && |Strip(body)| <= 4000
                                     case Envelope(_, accepted) => accepted)
            && (r.Err? ==> after == chat)
            && (r == Err(ConversationNotFound) <==> c >= |chat.convs|)
            && (r == Err(NotAMember) <==> c < |chat.convs| && !member)
            && (r == Err(EmptyBody) <==> member && draft.Plain? && AllSpace(draft.body))
            && (r == Err(BodyTooLong) <==> member && draft.Plain? && |Strip(draft.body)| > 4000)
            && (r == Err(BodyRejected) <==> member && draft.Envelope? && !draft.accepted)
            && (r.Ok? ==>
                  && |after.messages| == |chat.messages| + 1 && chat.messages <= after.messages
                  && WentOut(chat, after, c, sender, TextKind(if draft.Plain? then Strip(draft.body) else draft.body), now,
                             r.value)
                  && forall d, u | 0 <= d < |chat.convs| && IsMember(u, chat.convs[d]) ::
                       UnreadFor(u, after.convs[d]) ==
                       UnreadFor(u, chat.convs[d]) + if d == c && u != sender then 1 else 0)
  {
    if draft.Plain? {
      StrippedBodyHasWords(draft.body);
    }
  }

  /** An image goes out exactly when the conversation exists, the sender is in it, the caption fits and the image
      decodes; the caption may be empty, and the peer gets one unread message as for a text. */
  lemma SendAttachmentIsExact(chat: Chat, c: nat, sender: User, body: string, decodes: bool, now: int)
    requires ChatInv(chat)
    ensures var (after, r) := SendAttachment(chat, c, sender, body, decodes, now);
            var member := c < |chat.convs| && (sender == chat.convs[c].low || sender == chat.convs[c].high);
            && (r.Ok? <==> member && |Strip(body)| <= 4000 && decodes)
            && (r.Err? ==> after == chat)
            && (r == Err(ConversationNotFound) <==> c >= |chat.convs|)
            && (r == Err(NotAMember) <==> c < |chat.convs| && !member)
            && (r == Err(BodyTooLong) <==> member && |Strip(body)| > 4000)
            && (r.Ok? ==> WentOut(chat, after, c, sender, ImageKind(Strip(body)), now, r.value))
  {
  }

  /** A system message goes out in every conversation there is, whoever it names as its sender. */
  lemma PostSystemIsExact(chat: Chat, c: nat, sender: User, kind: string, reference: nat, now: int)
    requires ChatInv(chat)
    ensures var (after, r) := PostSystemMessage(chat, c, sender, kind, reference, now);
            && (r.Ok? <==> c < |chat.convs|)
            && (r.Err? ==> r.error == ConversationNotFound && after == chat)
            && (r.Ok? ==> WentOut(chat, after, c, sender, SystemKind(kind, reference), now, r.value))
  {
  }

  /** Reading works exactly for a member of an existing conversation. It leaves that member with nothing to read there,
      is remembered as such, and changes no other slot, no conversation and no message. */
  lemma MarkReadIsExact(chat: Chat, c: nat, reader: User)
    requires PairsOk(chat.convs)
    ensures var (after, r) := MarkRead(chat, c, reader);
            var member := c < |chat.convs| && (reader == chat.convs[c].low || reader == chat.convs[c].high);
            && (r.Ok? <==> member)
            && (r.Err? ==> after == chat && r.error == if c >= |chat.convs| then ConversationNotFound else NotAMember)
            && (r.Ok? ==>
                  && r.value == c && |after.convs| == |chat.convs|
                  && after == chat.(convs := after.convs, log := chat.log + [WasRead(c, reader)])
                  && forall d | 0 <= d < |chat.convs| ::
                       var was, conv := chat.convs[d], after.convs[d];
                       && conv.low == was.low && conv.high == was.high
                       && conv.unreadLow == (if d == c && reader == was.low then 0 else was.unreadLow)
                       && conv.unreadHigh == (if d == c && reader == was.high then 0 else was.unreadHigh))
  {
  }

  /** The prune takes exactly the rows sent before the threshold, and nothing but rows. */
  lemma PruneIsExact(chat: Chat, threshold: int)
    ensures var after := Prune(chat, threshold).0;
            && after == chat.(messages := after.messages)
            && forall m :: m in after.messages <==> m in chat.messages && m.sentAt >= threshold
  {
    NotOlderKeeps(chat.messages, threshold);
  }

  ghost predicate DistinctIds(messages: seq<Message>) {
    forall j, k | 0 <= j < k < |messages| :: messages[j].id != messages[k].id
  }

  lemma {:induction false} WithoutStaysDistinct(messages: seq<Message>, id: nat)
    requires DistinctIds(messages)
    ensures DistinctIds(Without(messages, id))
    ensures |Without(messages, id)| == |messages| - if exists k :: 0 <= k < |messages| && messages[k].id == id then 1 else 0
  {
    if messages != [] {
      var rest := messages[1..];
      WithoutStaysDistinct(rest, id);
      WithoutKeeps(rest, id);
      assert forall k | 0 <= k < |rest| :: rest[k] == messages[k + 1];
      assert forall k | 1 <= k < |messages| :: messages[k] == rest[k - 1];
      assert forall k | 0 <= k < |Without(rest, id)| :: Without(rest, id)[k] in Without(rest, id);
    }
  }

  lemma {:induction false} NotOlderStaysDistinct(messages: seq<Message>, threshold: int)
    requires DistinctIds(messages)
    ensures DistinctIds(NotOlder(messages, threshold))
  {
    if messages != [] {
      var rest := messages[1..];
      NotOlderStaysDistinct(rest, threshold);
      NotOlderKeeps(rest, threshold);
      assert forall k | 0 <= k < |rest| :: rest[k] == messages[k + 1];
      assert forall k | 0 <= k < |NotOlder(rest, threshold)| :: NotOlder(rest, threshold)[k] in NotOlder(rest, threshold);
    }
  }

  lemma {:induction false} IdsAlwaysDistinct(ops: seq<Op>)
    ensures DistinctIds(Run(ops).messages)
  {
    if ops != [] {
      var init, last := ops[..|ops| - 1], ops[|ops| - 1];
      IdsAlwaysDistinct(init);
      RunKeepsInv(init);
      match last
      case OpDelete(id, caller) => WithoutStaysDistinct(Run(init).messages, id);
      case OpPrune(threshold) => NotOlderStaysDistinct(Run(init).messages, threshold);
      case _ =>
    }
  }

  /** After any run: a message can be deleted exactly by its sender; then that one message is gone, and every other
      message, every counter and the history stay. */
  lemma {:induction false} DeleteIsExact(ops: seq<Op>, id: nat, caller: User)
    ensures var chat := Run(ops);
            var (after, r) := DeleteMessage(chat, id, caller);
            && (r.Ok? <==> exists m :: m in chat.messages && m.id == id && m.sender == caller)
            && (r.Err? ==> after == chat)
            && (r.Ok? ==> |after.messages| == |chat.messages| - 1 && after == chat.(messages := after.messages))
            && (r.Ok? ==> forall m :: m in after.messages <==> m in chat.messages && m.id != id)
  {
    IdsAlwaysDistinct(ops);
    WithoutStaysDistinct(Run(ops).messages, id);
    WithoutKeeps(Run(ops).messages, id);
  }
}
