/** What an unread slot is made of: the unread messages a reader can still find, and those deleted or pruned. */
module Badges {
  import opened Conversations
  import opened Text

  /** Row m is the message sent at moment i. */
  predicate SentAs(h: Happening, m: Message) {
    h == Sent(m.conv, m.sender, m.kind, m.id)
  }

  /** Every id was given out once, and every row was sent. */
  ghost predicate TableMatchesLog(chat: Chat) {
    && (forall i | 0 <= i < |chat.log| && chat.log[i].Sent? :: chat.log[i].id < chat.nextId)
    && (forall i, j | 0 <= i < j < |chat.log| && chat.log[i].Sent? && chat.log[j].Sent? :: chat.log[i].id != chat.log[j].id)
    && (forall m | m in chat.messages :: exists i :: 0 <= i < |chat.log| && SentAs(chat.log[i], m))
  }

  lemma PostKeepsMatch(chat: Chat, c: nat, sender: User, kind: Kind, now: int)
    requires TableMatchesLog(chat) && c < |chat.convs|
    ensures TableMatchesLog(Post(chat, c, sender, kind, now))
  {
    var after := Post(chat, c, sender, kind, now);
    forall m | m in after.messages
      ensures exists i :: 0 <= i < |after.log| && SentAs(after.log[i], m)
    {
      if m in chat.messages {
        var i :| 0 <= i < |chat.log| && SentAs(chat.log[i], m);
        assert after.log[i] == chat.log[i];
      } else {
        assert SentAs(after.log[|chat.log|], m);
      }
    }
  }

  lemma ReadKeepsMatch(chat: Chat, c: nat, u: User)
    requires TableMatchesLog(chat)
    ensures TableMatchesLog(MarkRead(chat, c, u).0)
  {
    var after := MarkRead(chat, c, u).0;
    forall m | m in after.messages
      ensures exists i :: 0 <= i < |after.log| && SentAs(after.log[i], m)
    {
      var i :| 0 <= i < |chat.log| && SentAs(chat.log[i], m);
      assert after.log[i] == chat.log[i];
    }
  }

  lemma StepKeepsMatch(chat: Chat, op: Op)
    requires TableMatchesLog(chat)
    ensures TableMatchesLog(Apply(chat, op))
  {
    match op
    case OpText(c, sender, draft, now) =>
      if c < |chat.convs| { PostKeepsMatch(chat, c, sender, TextKind(Content(draft)), now); }
    case OpAttachment(c, sender, body, _, now) =>
      if c < |chat.convs| { PostKeepsMatch(chat, c, sender, ImageKind(Strip(body)), now); }
    case OpSystem(c, sender, kind, reference, now) =>
      if c < |chat.convs| { PostKeepsMatch(chat, c, sender, SystemKind(kind, reference), now); }
    case OpRead(c, reader) => ReadKeepsMatch(chat, c, reader);
    case OpDelete(id, caller) => WithoutKeeps(chat.messages, id);
    case OpPrune(threshold) => NotOlderKeeps(chat.messages, threshold);
    case OpStart(a, b) =>
  }

  lemma {:induction false} TableAlwaysMatchesLog(ops: seq<Op>)
    ensures TableMatchesLog(Run(ops))
  {
    if ops != [] {
      TableAlwaysMatchesLog(ops[..|ops| - 1]);
      StepKeepsMatch(Run(ops[..|ops| - 1]), ops[|ops| - 1]);
    }
  }

  /** The message sent at moment i is still in the table. */
  ghost predicate StillThere(chat: Chat, i: nat)
    requires i < |chat.log|
  {
    exists m :: m in chat.messages && SentAs(chat.log[i], m)
  }

  /** The rows of conversation c from u's peer that were sent after u last read it. */
  ghost function UnreadRows(chat: Chat, c: nat, u: User): set<Message>
    requires c < |chat.convs|
  {
    set m | m in chat.messages && exists i :: i in UnreadAt(chat.log, chat.convs, c, u) && SentAs(chat.log[i], m)
  }

  /** The unread moments whose message has been deleted or pruned since. */
  ghost function UnreadGone(chat: Chat, c: nat, u: User): set<nat>
    requires c < |chat.convs|
  {
    set i | i in UnreadAt(chat.log, chat.convs, c, u) && !StillThere(chat, i)
  }

  ghost function Image<T(!new)>(xs: set<T>, f: T -> nat): set<nat> {
    set x | x in xs :: f(x)
  }

  /** An injective numbering keeps the size of a set. */
  lemma {:induction false} SizeOfImage<T(!new)>(xs: set<T>, f: T -> nat)
    requires forall x, y | x in xs && y in xs && f(x) == f(y) :: x == y
    ensures |Image(xs, f)| == |xs|
  {
    if xs != {} {
      var x :| x in xs;
      var rest := xs - {x};
      SizeOfImage(rest, f);
      assert Image(xs, f) == Image(rest, f) + {f(x)};
    }
  }

  ghost function IdAt(log: seq<Happening>): nat -> nat {
    (i: nat) => if i < |log| && log[i].Sent? then log[i].id else 0
  }

  ghost function IdOf(): Message -> nat {
    (m: Message) => m.id
  }

  lemma MomentsAsIds(chat: Chat, moments: set<nat>)
    requires TableMatchesLog(chat) && forall i | i in moments :: i < |chat.log| && chat.log[i].Sent?
    ensures |Image(moments, IdAt(chat.log))| == |moments|
  {
    SizeOfImage(moments, IdAt(chat.log));
  }

  lemma RowsAsIds(messages: seq<Message>, rows: set<Message>)
    requires DistinctIds(messages) && forall m | m in rows :: m in messages
    ensures |Image(rows, IdOf())| == |rows|
  {
    SizeOfImage(rows, IdOf());
  }

  /** The rows not read and the unread moments whose message is still there carry the same ids. */
  lemma SameIds(chat: Chat, c: nat, u: User)
    requires c < |chat.convs|
    ensures var kept := UnreadAt(chat.log, chat.convs, c, u) - UnreadGone(chat, c, u);
            Image(kept, IdAt(chat.log)) == Image(UnreadRows(chat, c, u), IdOf())
  {
    var unread := UnreadAt(chat.log, chat.convs, c, u);
    var kept, rows := unread - UnreadGone(chat, c, u), UnreadRows(chat, c, u);
    forall i | i in kept
      ensures exists m :: m in rows && IdOf()(m) == IdAt(chat.log)(i)
    {
      var m :| m in chat.messages && SentAs(chat.log[i], m);
      assert m in rows;
    }
    forall m | m in rows
      ensures exists i :: i in kept && IdAt(chat.log)(i) == IdOf()(m)
    {
      var i :| i in unread && SentAs(chat.log[i], m);
      assert StillThere(chat, i) && i in kept;
    }
  }

  lemma UnreadSplits(chat: Chat, c: nat, u: User)
    requires TableMatchesLog(chat) && DistinctIds(chat.messages) && c < |chat.convs|
    ensures |UnreadAt(chat.log, chat.convs, c, u)| == |UnreadRows(chat, c, u)| + |UnreadGone(chat, c, u)|
  {
    var unread, gone := UnreadAt(chat.log, chat.convs, c, u), UnreadGone(chat, c, u);
    SameIds(chat, c, u);
    MomentsAsIds(chat, unread - gone);
    RowsAsIds(chat.messages, UnreadRows(chat, c, u));
  }

  /** After any run, a slot is the number of rows the reader has not read plus the number of unread messages that were
      deleted or pruned; so it never shows less than there is to read, and it is exact as long as nothing unread has
      gone. */
  lemma SlotIsRowsPlusGone(ops: seq<Op>, c: nat, u: User)
    requires c < |Run(ops).convs| && IsMember(u, Run(ops).convs[c])
    ensures var chat := Run(ops);
            && UnreadFor(u, chat.convs[c]) == |UnreadRows(chat, c, u)| + |UnreadGone(chat, c, u)|
            && UnreadFor(u, chat.convs[c]) >= |UnreadRows(chat, c, u)|
            && (UnreadFor(u, chat.convs[c]) == |UnreadRows(chat, c, u)| <==> UnreadGone(chat, c, u) == {})
  {
    UnreadIsHistory(ops, c, u);
    TableAlwaysMatchesLog(ops);
    IdsAlwaysDistinct(ops);
    UnreadSplits(Run(ops), c, u);
  }
}
