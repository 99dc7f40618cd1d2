/** Peer-to-peer token transfers, and the ledger law over any mix of everything that moves tokens. */
module Transfers {
  import opened Common
  import opened Conversations
  import opened Ledger
  import opened WidgetMeter
  import opened GuestTokens

  /** What the nickname lookup found. */
  datatype Listing = Listing(user: User, banned: bool, searchHidden: bool)

  datatype Amount = IntAmount(n: int) | NotAnInt

  datatype Record = Record(sender: User, recipient: User, amount: nat, note: Option<string>)

  datatype TransferError = BadAmount | NicknameNotFound | SelfTransfer | InsufficientTokens

  datatype Receipt = Receipt(transferId: nat, recipient: User, amount: nat, newBalance: int)

  /** Ledger, audit records (their id is their position) and chat, as one transaction sees them. */
  datatype World = World(books: Books, records: seq<Record>, chat: Chat)

  const NOTHING_YET := World(NO_BOOKS, [], NO_CHAT)

  const TRANSFER_KIND := "token_transfer"

  function TransferCheck(w: World, sender: User, target: Option<Listing>, amount: Amount): (r: Option<TransferError>)
    ensures r.None? ==> amount.IntAmount? && amount.n > 0 && target.Some? && target.value.user != sender
    ensures r.None? ==> Balance(w.books, sender) >= amount.n
  {
    if amount.NotAnInt? || amount.n <= 0 then Some(TransferError.BadAmount)
    else if target.None? || target.value.banned || target.value.searchHidden then Some(NicknameNotFound)
    else if target.value.user == sender then Some(SelfTransfer)
    else if Balance(w.books, sender) < amount.n then Some(InsufficientTokens)
    else None
  }

  /** Debit, credit, record and system message, all or nothing. */
  function Transfer(w: World, sender: User, target: Option<Listing>, amount: Amount, note: Option<string>, now: int)
    : (World, Result<Receipt, TransferError>)
  {
    match TransferCheck(w, sender, target, amount)
    case Some(e) => (w, Err(e))
    case None =>
      var n: nat := amount.n;
      var to := target.value.user;
      var debited := Debit(w.books, sender, n, Ledger.Transfer).value;
      var (started, conv) := StartOrGet(w.chat, sender, to);
      var id := |w.records|;
      (World(Credit(debited, to, n, Ledger.Transfer), w.records + [Record(sender, to, n, note)],
             Conversations.PostSystemMessage(started, conv.value, sender, TRANSFER_KIND, id, now).0),
       Ok(Receipt(id, to, n, Balance(debited, sender))))
  }

  // ---- One transfer --------------------------------------------------------------------------------------

  /** A transfer goes through exactly when the amount is a positive integer, the nickname leads to somebody else who is
      neither banned nor hidden, and the balance covers it; the first of these that fails decides the error. */
  lemma TransferGoesThrough(w: World, sender: User, target: Option<Listing>, amount: Amount, note: Option<string>, now: int)
    ensures var (after, r) := Transfer(w, sender, target, amount, note, now);
            var positive := amount.IntAmount? && amount.n > 0;
            var listed := target.Some? && !target.value.banned && !target.value.searchHidden;
            && (r.Ok? <==> positive && listed && target.value.user != sender && Balance(w.books, sender) >= amount.n)
            && (r == Err(TransferError.BadAmount) <==> !positive)
            && (r == Err(NicknameNotFound) <==> positive && !listed)
            && (r == Err(SelfTransfer) <==> positive && listed && target.value.user == sender)
            && (r == Err(InsufficientTokens) <==>
                  positive && listed && target.value.user != sender && Balance(w.books, sender) < amount.n)
            && (r.Err? ==> after == w)
  {
  }

  /** The one row that a transfer adds to the chat. */
  ghost predicate IsAnnounced(before: Chat, after: Chat, sender: User, to: User, id: nat, now: int) {
    && |after.messages| == |before.messages| + 1 && after.messages[..|before.messages|] == before.messages
    && var m := after.messages[|before.messages|];
       && m.sender == sender && m.kind == SystemKind("token_transfer", id) && m.sentAt == now
       && m.conv < |after.convs| && IsMember(sender, after.convs[m.conv]) && IsMember(to, after.convs[m.conv])
  }

  lemma PostIsAnnounced(chat: Chat, sender: User, to: User, id: nat, now: int)
    requires ChatInv(chat) && sender != to
    ensures var (started, conv) := StartOrGet(chat, sender, to);
            conv.Ok? &&
            IsAnnounced(chat, Conversations.PostSystemMessage(started, conv.value, sender, TRANSFER_KIND, id, now).0, sender,
                        to, id, now)
  {
    var (started, conv) := StartOrGet(chat, sender, to);
    StartOrGetIsSymmetric(chat, sender, to);
    StartOrGetIsExact(chat, sender, to);
    Conversations.StepKeepsInv(chat, OpStart(sender, to));
    PostSystemIsExact(started, conv.value, sender, TRANSFER_KIND, id, now);
  }

  /** One that does moves exactly the amount from the sender to the target and nobody else's balance; it leaves one
      record and one system message that refers to it; and the receipt names the record, the amount and what the sender
      has left. */
  lemma TransferIsExact(w: World, sender: User, target: Option<Listing>, amount: Amount, note: Option<string>, now: int)
    requires ChatInv(w.chat) && Transfer(w, sender, target, amount, note, now).1.Ok?
    ensures var (after, r) := Transfer(w, sender, target, amount, note, now);
            var to := target.value.user;
            && (forall u :: Balance(after.books, u) ==
                            Balance(w.books, u) + (if u == to then amount.n else 0) - (if u == sender then amount.n else 0))
            && after.records == w.records + [Record(sender, to, amount.n, note)]
            && r == Ok(Receipt(|w.records|, to, amount.n, Balance(w.books, sender) - amount.n))
            && IsAnnounced(w.chat, after.chat, sender, to, |w.records|, now)
  {
    PostIsAnnounced(w.chat, sender, target.value.user, |w.records|, now);
  }

  // ---- Everything that moves tokens -----------------------------------------------------------------------

  datatype Op =
    | OpGrant(u: User, granted: nat)
    | OpTransfer(sender: User, target: Option<Listing>, amount: Amount, note: Option<string>, now: int)
    | OpExchange(economy: Economy, roles: Roles, exchange: Exchange)
    | OpTopUp(reg: Registry, u: User, n: int)
    | OpReset(reg: Registry, u: User, n: int)
    | OpTopUpAll(reg: Registry, n: int)
    | OpResetAll(reg: Registry, n: int)
    | OpChat(chatOp: Conversations.Op)

  function OrElse(r: Result<Books, AdminError>, b: Books): Books {
    match r case Ok(after) => after case Err(_) => b
  }

  /** Only transfers post transfer messages; every other chat operation is free. */
  function Apply(w: World, op: Op): World {
    match op
    case OpGrant(u, amount) => w.(books := Credit(w.books, u, amount, InitialGrant))
    case OpTransfer(sender, target, amount, note, now) => Transfer(w, sender, target, amount, note, now).0
    case OpExchange(economy, roles, x) => w.(books := RunHooks(w.books, economy, roles, x))
    case OpTopUp(reg, u, n) => w.(books := OrElse(GuestTokens.TopUp(w.books, reg, u, n), w.books))
    case OpReset(reg, u, n) => w.(books := OrElse(GuestTokens.Reset(w.books, reg, u, n), w.books))
    case OpTopUpAll(reg, n) => w.(books := OrElse(GuestTokens.TopUpAll(w.books, reg, n), w.books))
    case OpResetAll(reg, n) => w.(books := OrElse(GuestTokens.ResetAll(w.books, reg, n), w.books))
    case OpChat(o) => if o.OpSystem? then w else w.(chat := Conversations.Apply(w.chat, o))
  }

  function Run(ops: seq<Op>): World {
    if ops == [] then NOTHING_YET else Apply(Run(ops[..|ops| - 1]), ops[|ops| - 1])
  }

  function Received(records: seq<Record>, u: User): nat {
    if records == [] then 0
    else
      var r := records[|records| - 1];
      Received(records[..|records| - 1], u) + if r.recipient == u then r.amount else 0
  }

  function SentOut(records: seq<Record>, u: User): nat {
    if records == [] then 0
    else
      var r := records[|records| - 1];
      SentOut(records[..|records| - 1], u) + if r.sender == u then r.amount else 0
  }

  // ---- The ledger law ----------------------------------------------------------------------------------------

  ghost predicate Solvent(b: Books) {
    forall u :: Balance(b, u) >= 0
  }

  /** No transfer happened from b to c: whatever moved a balance or the total is accounted as a net movement. */
  ghost predicate NetOnly(b: Books, c: Books) {
    && (Solvent(b) ==> Solvent(c))
    && (forall u :: Balance(c, u) - NetOf(c.entries, u) == Balance(b, u) - NetOf(b.entries, u))
    && Total(c.balances) - NetOfAll(c.entries) == Total(b.balances) - NetOfAll(b.entries)
  }

  lemma MoveIsNetOnly(b: Books, u: User, delta: int, origin: Origin)
    requires !origin.Transfer? && (Solvent(b) ==> Balance(b, u) + delta >= 0)
    ensures NetOnly(b, Move(b, u, delta, origin))
  {
    MoveMovesTotal(b, u, delta, origin);
  }

  lemma ChargeIsNetOnly(b: Books, economy: Economy, roles: Roles, m: SentMessage)
    ensures NetOnly(b, Charge(b, economy, roles, m))
  {
    match Billed(economy, roles, m)
    case Some((payer, words)) =>
      if Balance(b, payer) > 0 {
        MoveIsNetOnly(b, payer, -Min(words * economy.costPerWord, Balance(b, payer)), Usage);
      }
    case None =>
  }

  lemma {:induction false} HooksAreNetOnly(b: Books, economy: Economy, roles: Roles, x: Exchange)
    ensures NetOnly(b, RunHooks(b, economy, roles, x))
    decreases x, 0
  {
    if x.billFirst {
      ChargeIsNetOnly(b, economy, roles, x.message);
      AllHooksAreNetOnly(Charge(b, economy, roles, x.message), economy, roles, x.answers);
    } else {
      AllHooksAreNetOnly(b, economy, roles, x.answers);
      ChargeIsNetOnly(RunAll(b, economy, roles, x.answers), economy, roles, x.message);
    }
  }

  lemma {:induction false} AllHooksAreNetOnly(b: Books, economy: Economy, roles: Roles, xs: seq<Exchange>)
    ensures NetOnly(b, RunAll(b, economy, roles, xs))
    decreases xs, 1
  {
    if xs != [] {
      HooksAreNetOnly(b, economy, roles, xs[0]);
      AllHooksAreNetOnly(RunHooks(b, economy, roles, xs[0]), economy, roles, xs[1..]);
    }
  }

  lemma TopUpIsNetOnly(b: Books, reg: Registry, u: User, n: int)
    ensures GuestTokens.TopUp(b, reg, u, n).Ok? ==> NetOnly(b, GuestTokens.TopUp(b, reg, u, n).value)
  {
    if n > 0 {
      MoveIsNetOnly(b, u, n, Adjustment);
    }
  }

  lemma MoveOrNothing(b: Books, c: Books, u: User, delta: int)
    requires c == (if delta == 0 then b else Move(b, u, delta, Adjustment)) && Balance(b, u) + delta >= 0
    ensures NetOnly(b, c)
  {
    if delta != 0 {
      MoveIsNetOnly(b, u, delta, Adjustment);
    }
  }

  lemma ResetIsNetOnly(b: Books, reg: Registry, u: User, n: int)
    ensures GuestTokens.Reset(b, reg, u, n).Ok? ==> NetOnly(b, GuestTokens.Reset(b, reg, u, n).value)
  {
    if GuestTokens.Reset(b, reg, u, n).Ok? {
      MoveOrNothing(b, GuestTokens.Reset(b, reg, u, n).value, u, n - Balance(b, u));
    }
  }

  lemma {:induction false} EachIsNetOnly(b: Books, reg: Registry, todo: seq<User>, n: int)
    ensures TopUpEach(b, reg, todo, n).Ok? ==> NetOnly(b, TopUpEach(b, reg, todo, n).value)
    ensures ResetEach(b, reg, todo, n).Ok? ==> NetOnly(b, ResetEach(b, reg, todo, n).value)
  {
    if todo != [] {
      var init, last := todo[..|todo| - 1], todo[|todo| - 1];
      EachIsNetOnly(b, reg, init, n);
      if TopUpEach(b, reg, init, n).Ok? {
        TopUpIsNetOnly(TopUpEach(b, reg, init, n).value, reg, last, n);
      }
      if ResetEach(b, reg, init, n).Ok? {
        ResetIsNetOnly(ResetEach(b, reg, init, n).value, reg, last, n);
      }
    }
  }

  /** Balances are net movements plus what the records say was received, minus what they say was sent. */
  ghost predicate LedgerLaw(w: World) {
    && Solvent(w.books)
    && (forall u :: Balance(w.books, u) == NetOf(w.books.entries, u) + Received(w.records, u) - SentOut(w.records, u))
    && Total(w.books.balances) == NetOfAll(w.books.entries)
  }

  /** A debit and a credit of the same amount move it, and are neither income nor spending. */
  lemma TransferMovesBooks(b: Books, sender: User, to: User, n: nat)
    requires sender != to
    ensures var after := Move(Move(b, sender, 0 - n, Ledger.Transfer), to, n, Ledger.Transfer);
            && (forall u :: Balance(after, u) == Balance(b, u) + (if u == to then n else 0) - (if u == sender then n else 0))
            && (forall u :: NetOf(after.entries, u) == NetOf(b.entries, u))
            && Total(after.balances) == Total(b.balances) && NetOfAll(after.entries) == NetOfAll(b.entries)
  {
    var debited := Move(b, sender, 0 - n, Ledger.Transfer);
    MoveMovesTotal(b, sender, 0 - n, Ledger.Transfer);
    MoveMovesTotal(debited, to, n, Ledger.Transfer);
  }

  lemma RecordCounts(records: seq<Record>, r: Record, u: User)
    ensures Received(records + [r], u) == Received(records, u) + if r.recipient == u then r.amount else 0
    ensures SentOut(records + [r], u) == SentOut(records, u) + if r.sender == u then r.amount else 0
  {
    assert (records + [r])[..|records + [r]| - 1] == records;
  }

  lemma TransferKeepsLaw(w: World, sender: User, target: Option<Listing>, amount: Amount, note: Option<string>, now: int)
    requires LedgerLaw(w)
    ensures LedgerLaw(Transfer(w, sender, target, amount, note, now).0)
  {
    if TransferCheck(w, sender, target, amount).None? {
      var after := Transfer(w, sender, target, amount, note, now).0;
      var n: nat := amount.n;
      var to := target.value.user;
      TransferMovesBooks(w.books, sender, to, n);
      assert after.books == Move(Move(w.books, sender, 0 - n, Ledger.Transfer), to, n, Ledger.Transfer);
      forall u
        ensures Balance(after.books, u) ==
                NetOf(after.books.entries, u) + Received(after.records, u) - SentOut(after.records, u)
      {
        RecordCounts(w.records, after.records[|w.records|], u);
      }
    }
  }

  lemma StepKeepsLaw(w: World, op: Op)
    requires LedgerLaw(w)
    ensures LedgerLaw(Apply(w, op))
  {
    var v := Apply(w, op);
    match op
    case OpTransfer(sender, target, amount, note, now) => TransferKeepsLaw(w, sender, target, amount, note, now);
    case OpChat(o) =>
    case _ =>
      StepIsNetOnly(w, op);
  }

  lemma StepIsNetOnly(w: World, op: Op)
    requires LedgerLaw(w) && !op.OpTransfer? && !op.OpChat?
    ensures NetOnly(w.books, Apply(w, op).books) && Apply(w, op).records == w.records
  {
    match op
    case OpGrant(u, amount) => MoveIsNetOnly(w.books, u, amount, InitialGrant);
    case OpExchange(economy, roles, x) => HooksAreNetOnly(w.books, economy, roles, x);
    case OpTopUp(reg, u, n) => TopUpIsNetOnly(w.books, reg, u, n);
    case OpReset(reg, u, n) => ResetIsNetOnly(w.books, reg, u, n);
    case OpTopUpAll(reg, n) => EachIsNetOnly(w.books, reg, reg.guests, n);
    case OpResetAll(reg, n) => EachIsNetOnly(w.books, reg, reg.guests, n);
  }

  /** What the other steps of a run do to the balance of any user v: a grant or top-up adds its amount to the one user,
      a reset sets the target, an exchange takes the price; and where the request fails they do nothing. */
  lemma OtherStepsAreExact(w: World, reg: Registry, u: User, n: int, x: Exchange, economy: Economy, v: User)
    requires Solvent(w.books)
    ensures var before, isGuest := Balance(w.books, v), IsWidgetGuest(reg, u);
            && (n >= 0 ==> Balance(Apply(w, OpGrant(u, n)).books, v) == before + if v == u then n else 0)
            && Balance(Apply(w, OpTopUp(reg, u, n)).books, v) == before + (if isGuest && n > 0 && v == u then n else 0)
            && Balance(Apply(w, OpReset(reg, u, n)).books, v) == (if isGuest && n >= 0 && v == u then n else before)
            && Balance(Apply(w, OpExchange(economy, reg.roles, x)).books, v) ==
                 Clamped(before - Price(economy, WordsOf(economy, reg.roles, x, v)))
  {
    OneGuestIsExact(w.books, reg, u, n);
    HooksTakeThePrice(w.books, economy, reg.roles, x, v);
  }

  /** And the bulk requests: they reach every session guest, or nobody when the number is bad or one is no guest. */
  lemma BulkStepsAreExact(w: World, reg: Registry, n: int, v: User)
    requires Solvent(w.books) && NoDup(reg.guests)
    ensures var before, allGuests := Balance(w.books, v), forall g | g in reg.guests :: IsGuest(reg.roles, g);
            && Balance(Apply(w, OpTopUpAll(reg, n)).books, v) ==
                 before + (if allGuests && n > 0 && v in reg.guests then n else 0)
            && Balance(Apply(w, OpResetAll(reg, n)).books, v) ==
                 (if allGuests && n >= 0 && v in reg.guests then n else before)
  {
    BulkOf(w.books, reg, n);
  }

  lemma BulkOf(b: Books, reg: Registry, n: int)
    requires Solvent(b) && NoDup(reg.guests)
    ensures var allGuests := forall g | g in reg.guests :: IsGuest(reg.roles, g);
            && (GuestTokens.TopUpAll(b, reg, n).Ok? <==> n > 0 && allGuests)
            && (GuestTokens.ResetAll(b, reg, n).Ok? <==> n >= 0 && allGuests)
            && (n > 0 && allGuests ==> forall v ::
                  Balance(GuestTokens.TopUpAll(b, reg, n).value, v) == Balance(b, v) + if v in reg.guests then n else 0)
            && (n >= 0 && allGuests ==> forall v ::
                  Balance(GuestTokens.ResetAll(b, reg, n).value, v) == if v in reg.guests then n else Balance(b, v))
  {
    if n > 0 {
      TopUpEachIsExact(b, reg, reg.guests, n);
    }
    if n >= 0 {
      ResetEachIsExact(b, reg, reg.guests, n);
    }
  }

  /** Over any run of grants, transfers, charged exchanges, top-ups, resets and chat: no balance is negative,
      the records explain every transfer, and transfers never change the total. */
  lemma {:induction false} LedgerLawHolds(ops: seq<Op>)
    ensures LedgerLaw(Run(ops))
  {
    if ops == [] {
      assert Total(map[]) == 0;
    } else {
      LedgerLawHolds(ops[..|ops| - 1]);
      StepKeepsLaw(Run(ops[..|ops| - 1]), ops[|ops| - 1]);
    }
  }

  // ---- One message per record ------------------------------------------------------------------------------

  /** The history entry that announces record k. */
  ghost predicate Announces(log: seq<Happening>, i: nat, k: nat) {
    i < |log| && log[i].Sent? && log[i].kind == SystemKind(TRANSFER_KIND, k)
  }

  ghost predicate AnnouncedOnce(w: World, k: nat)
    requires k < |w.records|
  {
    exists i: nat ::
      Announces(w.chat.log, i, k) && RightPlace(w, i, k) && forall j: nat :: Announces(w.chat.log, j, k) ==> j == i
  }

  /** Posted by the record's sender, in the conversation of exactly its two parties. */
  ghost predicate RightPlace(w: World, i: nat, k: nat)
    requires k < |w.records| && i < |w.chat.log| && w.chat.log[i].Sent?
  {
    var h, r := w.chat.log[i], w.records[k];
    && h.sender == r.sender && r.sender != r.recipient && h.conv < |w.chat.convs|
    && IsMember(r.sender, w.chat.convs[h.conv]) && IsMember(r.recipient, w.chat.convs[h.conv])
  }

  ghost predicate AnnouncementInv(w: World) {
    && ChatInv(w.chat)
    && (forall k | 0 <= k < |w.records| :: AnnouncedOnce(w, k))
    && (forall i: nat, k: nat :: Announces(w.chat.log, i, k) ==> k < |w.records|)
  }

  /** Chat only adds to the history and the pair table, and leaves participants alone. */
  ghost predicate ChatGrows(a: Chat, b: Chat) {
    && |a.log| <= |b.log| && b.log[..|a.log|] == a.log && |a.convs| <= |b.convs|
    && (forall c | 0 <= c < |a.convs| :: a.convs[c].low == b.convs[c].low && a.convs[c].high == b.convs[c].high)
  }

  lemma AnnouncementsSurvive(w: World, v: World, k: nat)
    requires k < |w.records| && AnnouncedOnce(w, k) && ChatGrows(w.chat, v.chat) && w.records <= v.records
    requires forall i: nat :: i >= |w.chat.log| ==> !Announces(v.chat.log, i, k)
    ensures AnnouncedOnce(v, k)
  {
    var i: nat :| Announces(w.chat.log, i, k) && RightPlace(w, i, k) && forall j: nat :: Announces(w.chat.log, j, k) ==> j == i;
    assert forall j | 0 <= j < |w.chat.log| :: v.chat.log[j] == v.chat.log[..|w.chat.log|][j] == w.chat.log[j];
    assert Announces(v.chat.log, i, k) && RightPlace(v, i, k);
    forall j: nat | Announces(v.chat.log, j, k)
      ensures j == i
    {
      assert Announces(w.chat.log, j, k);
    }
  }

  lemma ChatStepKeepsAnnouncements(w: World, op: Conversations.Op)
    requires AnnouncementInv(w) && !op.OpSystem?
    ensures AnnouncementInv(w.(chat := Conversations.Apply(w.chat, op)))
  {
    var v := w.(chat := Conversations.Apply(w.chat, op));
    Conversations.StepKeepsInv(w.chat, op);
    assert forall j | 0 <= j < |w.chat.log| :: v.chat.log[j] == v.chat.log[..|w.chat.log|][j] == w.chat.log[j];
    assert forall i: nat, k: nat :: Announces(v.chat.log, i, k) ==> Announces(w.chat.log, i, k);
    forall k | 0 <= k < |w.records|
      ensures AnnouncedOnce(v, k)
    {
      AnnouncementsSurvive(w, v, k);
    }
  }

  lemma PostAnnounces(w: World, v: World, c: nat, sender: User, to: User, amount: nat, note: Option<string>, now: int)
    requires AnnouncementInv(w) && c < |w.chat.convs| && sender != to
    requires IsMember(sender, w.chat.convs[c]) && IsMember(to, w.chat.convs[c])
    requires v.records == w.records + [Record(sender, to, amount, note)]
    requires v.chat == Post(w.chat, c, sender, SystemKind(TRANSFER_KIND, |w.records|), now)
    ensures AnnouncementInv(v)
  {
    var n, me: nat := |w.records|, |w.chat.log|;
    PostKeepsInv(w.chat, c, sender, SystemKind(TRANSFER_KIND, n), now);
    assert v.chat.log[..me] == w.chat.log;
    assert forall i: nat, k: nat :: Announces(v.chat.log, i, k) <==> Announces(w.chat.log, i, k) || (i == me && k == n);
    forall k | 0 <= k < |v.records|
      ensures AnnouncedOnce(v, k)
    {
      if k < n {
        AnnouncementsSurvive(w, v, k);
      } else {
        assert Announces(v.chat.log, me, n) && RightPlace(v, me, n);
      }
    }
  }

  lemma TransferKeepsAnnouncements(w: World, sender: User, target: Option<Listing>, amount: Amount, note: Option<string>,
                                   now: int)
    requires AnnouncementInv(w)
    ensures AnnouncementInv(Transfer(w, sender, target, amount, note, now).0)
  {
    if TransferCheck(w, sender, target, amount).None? {
      var to := target.value.user;
      var (started, conv) := StartOrGet(w.chat, sender, to);
      StartOrGetIsSymmetric(w.chat, sender, to);
      ChatStepKeepsAnnouncements(w, OpStart(sender, to));
      PostAnnounces(w.(chat := started), Transfer(w, sender, target, amount, note, now).0, conv.value, sender, to,
                    amount.n, note, now);
    }
  }

  lemma UntouchedChatKeepsAnnouncements(w: World, v: World)
    requires AnnouncementInv(w) && v.chat == w.chat && v.records == w.records
    ensures AnnouncementInv(v)
  {
    forall k | 0 <= k < |w.records|
      ensures AnnouncedOnce(v, k)
    {
      AnnouncementsSurvive(w, v, k);
    }
  }

  lemma StepKeepsAnnouncements(w: World, op: Op)
    requires AnnouncementInv(w)
    ensures AnnouncementInv(Apply(w, op))
  {
    match op
    case OpTransfer(sender, target, amount, note, now) => TransferKeepsAnnouncements(w, sender, target, amount, note, now);
    case OpChat(o) => if !o.OpSystem? { ChatStepKeepsAnnouncements(w, o); }
    case _ => UntouchedChatKeepsAnnouncements(w, Apply(w, op));
  }

  lemma {:induction false} AnnouncementsHold(ops: seq<Op>)
    ensures AnnouncementInv(Run(ops))
  {
    if ops != [] {
      AnnouncementsHold(ops[..|ops| - 1]);
      StepKeepsAnnouncements(Run(ops[..|ops| - 1]), ops[|ops| - 1]);
    }
  }

  /** Each transfer record was announced by exactly one system message, from its sender, in the one conversation
      the two parties share; deletions and prunes do not rewrite that history. */
  lemma {:induction false} EveryRecordAnnouncedOnce(ops: seq<Op>, k: nat)
    requires k < |Run(ops).records|
    ensures exists i: nat ::
              && Announces(Run(ops).chat.log, i, k) && RightPlace(Run(ops), i, k)
              && forall j: nat :: Announces(Run(ops).chat.log, j, k) ==> j == i
    ensures PairsOk(Run(ops).chat.convs)
  {
    AnnouncementsHold(ops);
    assert AnnouncedOnce(Run(ops), k);
  }
}
