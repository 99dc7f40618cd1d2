/** The conversation and message services as objects that change their tables row by row. Each method is
    tied to its function in `Conversations`, whose runs carry the counting theorems. */
module MessageServices {
  import opened Common
  import opened Text
  import opened Conversations

  class MessageService {
    var convs: seq<Conversation>
    var messages: seq<Message>
    var nextId: nat
    ghost var log: seq<Happening>

    ghost function State(): Chat
      reads this
    {
      Chat(convs, messages, nextId, log)
    }

    constructor ()
      ensures State() == NO_CHAT
    {
      convs, messages, nextId := [], [], 0;
      log := [];
    }

    method StartOrGet(a: User, b: User) returns (r: Result<nat, Error>)
      modifies this
      ensures State() == Conversations.StartOrGet(old(State()), a, b).0
      ensures r == Conversations.StartOrGet(old(State()), a, b).1
      ensures State() == Apply(old(State()), OpStart(a, b))
    {
      var pair := OrderPair(a, b);
      if pair.Err? {
        return Err(pair.error);
      }
      var (low, high) := pair.value;
      var existing := FindByPair(convs, low, high);
      if existing.Some? {
        return Ok(existing.value);
      }
      r := Ok(|convs|);
      convs := convs + [Conversation(low, high, 0, 0)];
    }

    /** Save the row, then bump the peer's unread slot. */
    method Deliver(c: nat, sender: User, kind: Kind, now: int) returns (id: nat)
      requires c < |convs|
      modifies this
      ensures State() == Post(old(State()), c, sender, kind, now)
      ensures id == old(nextId)
    {
      id := nextId;
      messages := messages + [Message(id, c, sender, kind, now)];
      nextId := nextId + 1;
      var peer := PeerOf(sender, convs[c]);
      var conv := convs[c];
      if peer == conv.low {
        conv := conv.(unreadLow := conv.unreadLow + 1);
      } else {
        conv := conv.(unreadHigh := conv.unreadHigh + 1);
      }
      convs := convs[c := conv];
      log := log + [Sent(c, sender, kind, id)];
    }

    method SendText(c: nat, sender: User, draft: Draft, now: int) returns (r: Result<nat, Error>)
      modifies this
      ensures State() == Conversations.SendText(old(State()), c, sender, draft, now).0
      ensures r == Conversations.SendText(old(State()), c, sender, draft, now).1
      ensures State() == Apply(old(State()), OpText(c, sender, draft, now))
    {
      if c >= |convs| {
        return Err(ConversationNotFound);
      }
      if !IsMember(sender, convs[c]) {
        return Err(NotAMember);
      }
      match draft {
        case Plain(body) =>
          var clean := Strip(body);
          if clean == "" {
            return Err(EmptyBody);
          }
          if |clean| > BODY_MAX {
            return Err(BodyTooLong);
          }
        case Envelope(_, accepted) =>
          if !accepted {
            return Err(BodyRejected);
          }
      }
      var id := Deliver(c, sender, TextKind(Content(draft)), now);
      r := Ok(id);
    }

    method SendAttachment(c: nat, sender: User, body: string, decodes: bool, now: int) returns (r: Result<nat, Error>)
      modifies this
      ensures State() == Conversations.SendAttachment(old(State()), c, sender, body, decodes, now).0
      ensures r == Conversations.SendAttachment(old(State()), c, sender, body, decodes, now).1
      ensures State() == Apply(old(State()), OpAttachment(c, sender, body, decodes, now))
    {
      if c >= |convs| {
        return Err(ConversationNotFound);
      }
      if !IsMember(sender, convs[c]) {
        return Err(NotAMember);
      }
      if |Strip(body)| > BODY_MAX {
        return Err(BodyTooLong);
      }
      if !decodes {
        return Err(BodyRejected);
      }
      var id := Deliver(c, sender, ImageKind(Strip(body)), now);
      r := Ok(id);
    }

    method PostSystemMessage(c: nat, sender: User, kind: string, reference: nat, now: int) returns (r: Result<nat, Error>)
      modifies this
      ensures State() == Conversations.PostSystemMessage(old(State()), c, sender, kind, reference, now).0
      ensures r == Conversations.PostSystemMessage(old(State()), c, sender, kind, reference, now).1
      ensures State() == Apply(old(State()), OpSystem(c, sender, kind, reference, now))
    {
      if c >= |convs| {
        return Err(ConversationNotFound);
      }
      var id := Deliver(c, sender, SystemKind(kind, reference), now);
      r := Ok(id);
    }

    method MarkRead(c: nat, reader: User) returns (r: Result<nat, Error>)
      modifies this
      ensures State() == Conversations.MarkRead(old(State()), c, reader).0
      ensures r == Conversations.MarkRead(old(State()), c, reader).1
      ensures State() == Apply(old(State()), OpRead(c, reader))
    {
      if c >= |convs| {
        return Err(ConversationNotFound);
      }
      var conv := convs[c];
      if reader == conv.low {
        conv := conv.(unreadLow := 0);
      } else if reader == conv.high {
        conv := conv.(unreadHigh := 0);
      } else {
        return Err(NotAMember);
      }
      convs := convs[c := conv];
      log := log + [WasRead(c, reader)];
      r := Ok(c);
    }

    method DeleteMessage(id: nat, caller: User) returns (r: Result<nat, Error>)
      modifies this
      ensures State() == Conversations.DeleteMessage(old(State()), id, caller).0
      ensures r == Conversations.DeleteMessage(old(State()), id, caller).1
      ensures State() == Apply(old(State()), OpDelete(id, caller))
      ensures convs == old(convs)
    {
      var found := FindMessage(messages, id);
      if found.None? || found.value.sender != caller {
        return Err(MessageNotFound);
      }
      messages := Without(messages, id);
      r := Ok(id);
    }

    /** `_unread_total`, a sum over the inbox. */
    method UnreadTotal(u: User) returns (badge: nat)
      ensures badge == Conversations.UnreadTotal(convs, u)
      ensures ChatInv(State()) ==> badge == |UnreadAnywhere(log, convs, |convs|, u)|
    {
      badge := 0;
      for k := 0 to |convs|
        invariant badge == Conversations.UnreadTotal(convs[..k], u)
      {
        assert convs[..k + 1][..k] == convs[..k];
        if IsMember(u, convs[k]) {
          badge := badge + UnreadFor(u, convs[k]);
        }
      }
      assert convs[..|convs|] == convs;
      if ChatInv(State()) {
        BadgeUpTo(State(), |convs|, u);
      }
    }
  }
}
