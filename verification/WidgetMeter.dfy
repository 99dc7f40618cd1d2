/** The word economy of a public widget room: a gate before each guest send, a clamped charge after each message. */
module WidgetMeter {
  import opened Common
  import opened Text
  import opened Conversations
  import opened Ledger

  datatype Role = Guest | Bot | Human

  type Roles = map<User, Role>

  predicate IsGuest(roles: Roles, u: User) {
    u in roles && roles[u] == Guest
  }

  datatype Economy = Economy(enabled: bool, costPerWord: int, chargeBotAnswers: bool)

  /** A room as the meter sees it; members in the order they joined. */
  datatype MeteredRoom = MeteredRoom(widget: bool, members: seq<User>)

  /** A sent message; a message with no readable body has none. `room` is absent for a 1:1 message. */
  datatype SentMessage = SentMessage(room: Option<MeteredRoom>, sender: User, body: Option<string>)

  function Words(body: Option<string>): nat {
    if body.None? then 0 else WordCount(body.value)
  }

  /** `guard_send`: the send may go ahead. */
  predicate MaySend(b: Books, economy: Economy, roles: Roles, room: Option<MeteredRoom>, sender: User) {
    (economy.enabled && room.Some? && room.value.widget && IsGuest(roles, sender)) ==> Balance(b, sender) > 0
  }

  /** Member k is a guest and nobody before is. */
  predicate FirstGuestAt(roles: Roles, members: seq<User>, k: nat)
    requires k < |members|
  {
    IsGuest(roles, members[k]) && forall j | 0 <= j < k :: !IsGuest(roles, members[j])
  }

  /** `_guest_member_id`: who pays for the room's messages, the first guest among its members. */
  function PayingGuest(roles: Roles, members: seq<User>): (r: Option<User>)
    ensures r.Some? ==> exists k :: 0 <= k < |members| && FirstGuestAt(roles, members, k) && members[k] == r.value
    ensures r.Some? ==> r.value in members && IsGuest(roles, r.value)
    ensures r.None? ==> forall u | u in members :: !IsGuest(roles, u)
  {
    if members == [] then None
    else if IsGuest(roles, members[0]) then
      assert FirstGuestAt(roles, members, 0);
      Some(members[0])
    else
      var later := PayingGuest(roles, members[1..]);
      assert forall k | 0 <= k < |members| - 1 && FirstGuestAt(roles, members[1..], k) :: FirstGuestAt(roles, members, k + 1);
      later
  }

  /** Who is billed for a message, and for how many words; nobody when any condition of the hook fails. */
  function Billed(economy: Economy, roles: Roles, m: SentMessage): Option<(User, nat)> {
    if !economy.enabled || m.room.None? || !m.room.value.widget || Words(m.body) == 0 || economy.costPerWord <= 0 then None
    else
      match PayingGuest(roles, m.room.value.members)
      case None => None
      case Some(payer) =>
        if !economy.chargeBotAnswers && m.sender != payer then None else Some((payer, Words(m.body)))
  }

  function Min(a: int, b: int): int {
    if a <= b then a else b
  }

  /** `_charge` */
  function Charge(b: Books, economy: Economy, roles: Roles, m: SentMessage): Books {
    match Billed(economy, roles, m)
    case None => b
    case Some((payer, words)) =>
      if Balance(b, payer) <= 0 then b
      else Move(b, payer, -Min(words * economy.costPerWord, Balance(b, payer)), Usage)
  }

  method GuestMemberId(roles: Roles, members: seq<User>) returns (r: Option<User>)
    ensures r == PayingGuest(roles, members)
  {
    for k := 0 to |members|
      invariant PayingGuest(roles, members) == PayingGuest(roles, members[k..])
    {
      if IsGuest(roles, members[k]) {
        return Some(members[k]);
      }
    }
    return None;
  }

  class WidgetRoomMeter {
    const tokens: TokenService
    const economy: Economy

    constructor (tokens: TokenService, economy: Economy)
      ensures this.tokens == tokens && this.economy == economy
    {
      this.tokens := tokens;
      this.economy := economy;
    }

    method GuardSend(roles: Roles, room: Option<MeteredRoom>, sender: User) returns (allowed: bool)
      ensures allowed <==> MaySend(tokens.State(), economy, roles, room, sender)
    {
      if !economy.enabled || room.None? || !room.value.widget || !IsGuest(roles, sender) {
        return true;
      }
      var balance := tokens.GetBalance(sender);
      allowed := balance > 0;
    }
  }

  class WidgetRoomChargeHook {
    const tokens: TokenService
    const economy: Economy

    constructor (tokens: TokenService, economy: Economy)
      ensures this.tokens == tokens && this.economy == economy
    {
      this.tokens := tokens;
      this.economy := economy;
    }

    /** The overdraw the ledger would refuse never happens: the amount is clamped to the balance first. */
    method OnSent(roles: Roles, m: SentMessage)
      modifies tokens
      ensures tokens.State() == Charge(old(tokens.State()), economy, roles, m)
    {
      if !economy.enabled || m.room.None? || !m.room.value.widget {
        return;
      }
      var words := Words(m.body);
      if words == 0 || economy.costPerWord <= 0 {
        return;
      }
      var payer := GuestMemberId(roles, m.room.value.members);
      if payer.None? || (!economy.chargeBotAnswers && m.sender != payer.value) {
        return;
      }
      var balance := tokens.GetBalance(payer.value);
      if balance <= 0 {
        return;
      }
      var amount := Min(words * economy.costPerWord, balance);
      PositiveProduct(words, economy.costPerWord);
      var ok := tokens.DebitTokens(payer.value, amount, Usage);
      assert ok;
    }
  }

  lemma PositiveProduct(a: int, b: int)
    requires a > 0 && b > 0
    ensures a * b > 0
  {
  }

  // ---- One charge ------------------------------------------------------------------------------------------

  lemma FirstGuestPays(roles: Roles, members: seq<User>, k: nat)
    requires k < |members| && FirstGuestAt(roles, members, k)
    ensures PayingGuest(roles, members) == Some(members[k])
  {
    assert members[k] in members;
    var j :| 0 <= j < |members| && FirstGuestAt(roles, members, j) && Some(members[j]) == PayingGuest(roles, members);
    assert FirstGuestAt(roles, members, j) && IsGuest(roles, members[j]);
    assert FirstGuestAt(roles, members, k) && IsGuest(roles, members[k]);
  }

  lemma WhoIsBilled(economy: Economy, roles: Roles, members: seq<User>, k: nat, sender: User, body: string)
    requires k < |members| && FirstGuestAt(roles, members, k) && economy.enabled && economy.costPerWord > 0
    ensures Billed(economy, roles, SentMessage(Some(MeteredRoom(true, members)), sender, Some(body))) ==
            if |Split(body)| > 0 && (sender == members[k] || economy.chargeBotAnswers)
            then Some((members[k], |Split(body)|)) else None
  {
    FirstGuestPays(roles, members, k);
  }

  lemma TakesClamped(b: Books, u: User, amount: int)
    requires Balance(b, u) >= 0 && amount >= 0
    ensures var after := if Balance(b, u) <= 0 then b else Move(b, u, -Min(amount, Balance(b, u)), Usage);
            && Balance(after, u) == (if Balance(b, u) - amount < 0 then 0 else Balance(b, u) - amount)
            && forall v | v != u :: Balance(after, v) == Balance(b, v)
  {
  }

  /** The rate is taken for each whitespace-separated word of the body, from the first guest among the members, when
      that guest wrote the message or answers are charged too. The balance stops at zero, and nobody else's moves. */
  lemma ChargeIsExact(b: Books, economy: Economy, roles: Roles, members: seq<User>, k: nat, sender: User, body: string)
    requires k < |members| && FirstGuestAt(roles, members, k)
    requires economy.enabled && economy.costPerWord > 0 && Balance(b, members[k]) >= 0
    ensures var guest, m := members[k], SentMessage(Some(MeteredRoom(true, members)), sender, Some(body));
            var after := Charge(b, economy, roles, m);
            var left := Balance(b, guest) - |Split(body)| * economy.costPerWord;
            && (sender == guest || economy.chargeBotAnswers ==>
                  Balance(after, guest) == (if left < 0 then 0 else left) && BilledTo(economy, roles, m, guest) == |Split(body)|)
            && (sender != guest && !economy.chargeBotAnswers ==> after == b && BilledTo(economy, roles, m, guest) == 0)
            && (forall u | u != guest :: Balance(after, u) == Balance(b, u) && BilledTo(economy, roles, m, u) == 0)
  {
    WhoIsBilled(economy, roles, members, k, sender, body);
    var m := SentMessage(Some(MeteredRoom(true, members)), sender, Some(body));
    var words := |Split(body)|;
    if Billed(economy, roles, m).Some? {
      TakesClamped(b, members[k], words * economy.costPerWord);
    } else if words > 0 {
      assert sender != members[k] && !economy.chargeBotAnswers;
    }
  }

  /** Everything else is free: without the economy or a positive rate, outside widget rooms, without a readable body,
      and where no guest is. */
  lemma OtherwiseFree(b: Books, economy: Economy, roles: Roles, m: SentMessage, u: User)
    requires || !economy.enabled || economy.costPerWord <= 0
             || m.room.None? || !m.room.value.widget || m.body.None?
             || forall v | v in m.room.value.members :: !IsGuest(roles, v)
    ensures Charge(b, economy, roles, m) == b && BilledTo(economy, roles, m, u) == 0
  {
  }

  // ---- Charges in any order ------------------------------------------------------------------------------

  /** A message and the bot answers its post-send chain produces. In `billFirst` the charge hook was registered
      before the bot bridge, so it runs before the answers are sent; otherwise after them. */
  datatype Exchange = Exchange(message: SentMessage, billFirst: bool, answers: seq<Exchange>)

  /** The hooks of one message, nested sends included. */
  function RunHooks(b: Books, economy: Economy, roles: Roles, x: Exchange): Books
    decreases x, 0
  {
    if x.billFirst then RunAll(Charge(b, economy, roles, x.message), economy, roles, x.answers)
    else Charge(RunAll(b, economy, roles, x.answers), economy, roles, x.message)
  }

  function RunAll(b: Books, economy: Economy, roles: Roles, xs: seq<Exchange>): Books
    decreases xs, 1
  {
    if xs == [] then b
    else RunAll(RunHooks(b, economy, roles, xs[0]), economy, roles, xs[1..])
  }

  /** The words of a message that a given guest is billed for. */
  function BilledTo(economy: Economy, roles: Roles, m: SentMessage, guest: User): nat {
    match Billed(economy, roles, m)
    case Some((payer, words)) => if payer == guest then words else 0
    case None => 0
  }

  function WordsOf(economy: Economy, roles: Roles, x: Exchange, guest: User): nat
    decreases x, 0
  {
    BilledTo(economy, roles, x.message, guest) + WordsOfAll(economy, roles, x.answers, guest)
  }

  function WordsOfAll(economy: Economy, roles: Roles, xs: seq<Exchange>, guest: User): nat
    decreases xs, 1
  {
    if xs == [] then 0 else WordsOf(economy, roles, xs[0], guest) + WordsOfAll(economy, roles, xs[1..], guest)
  }

  /** The price of some words at the economy's rate; a rate that is not positive bills nothing. */
  function Price(economy: Economy, words: nat): nat {
    if economy.costPerWord <= 0 then 0 else words * economy.costPerWord
  }

  function Clamped(amount: int): int {
    if amount < 0 then 0 else amount
  }

  lemma PriceAdds(economy: Economy, a: nat, b: nat)
    ensures Price(economy, a + b) == Price(economy, a) + Price(economy, b)
  {
    if economy.costPerWord > 0 {
      assert (a + b) * economy.costPerWord == a * economy.costPerWord + b * economy.costPerWord;
    }
  }

  lemma ChargeTakesPrice(b: Books, economy: Economy, roles: Roles, m: SentMessage, guest: User)
    requires Balance(b, guest) >= 0
    ensures Balance(Charge(b, economy, roles, m), guest) ==
            Clamped(Balance(b, guest) - Price(economy, BilledTo(economy, roles, m, guest)))
  {
  }

  /** However question and answers nest and in whatever order the hooks run, the guest pays for every billed
      word once, and the balance stops at zero. */
  lemma {:induction false} HooksTakeThePrice(b: Books, economy: Economy, roles: Roles, x: Exchange, guest: User)
    requires Balance(b, guest) >= 0
    ensures Balance(RunHooks(b, economy, roles, x), guest) ==
            Clamped(Balance(b, guest) - Price(economy, WordsOf(economy, roles, x, guest)))
    decreases x, 0
  {
    PriceAdds(economy, BilledTo(economy, roles, x.message, guest), WordsOfAll(economy, roles, x.answers, guest));
    if x.billFirst {
      ChargeTakesPrice(b, economy, roles, x.message, guest);
      HooksTakeAll(Charge(b, economy, roles, x.message), economy, roles, x.answers, guest);
    } else {
      HooksTakeAll(b, economy, roles, x.answers, guest);
      ChargeTakesPrice(RunAll(b, economy, roles, x.answers), economy, roles, x.message, guest);
    }
  }

  lemma {:induction false} HooksTakeAll(b: Books, economy: Economy, roles: Roles, xs: seq<Exchange>, guest: User)
    requires Balance(b, guest) >= 0
    ensures Balance(RunAll(b, economy, roles, xs), guest) ==
            Clamped(Balance(b, guest) - Price(economy, WordsOfAll(economy, roles, xs, guest)))
    decreases xs, 1
  {
    if xs == [] {
      assert Price(economy, 0) == 0;
    } else {
      PriceAdds(economy, WordsOf(economy, roles, xs[0], guest), WordsOfAll(economy, roles, xs[1..], guest));
      HooksTakeThePrice(b, economy, roles, xs[0], guest);
      HooksTakeAll(RunHooks(b, economy, roles, xs[0]), economy, roles, xs[1..], guest);
    }
  }

  // ---- The gate and the charge together --------------------------------------------------------------------

  /** An attempt to send a plain body into a widget room, with the answers it would trigger. */
  datatype Attempt = Attempt(room: MeteredRoom, sender: User, body: string, billFirst: bool, answers: seq<Exchange>)

  function Accepted(b: Books, economy: Economy, roles: Roles, a: Attempt): bool {
    MaySend(b, economy, roles, Some(a.room), a.sender) && a.sender in a.room.members &&
    Strip(a.body) != "" && |Strip(a.body)| <= BODY_MAX
  }

  function AsExchange(a: Attempt): Exchange {
    Exchange(SentMessage(Some(a.room), a.sender, Some(Strip(a.body))), a.billFirst, a.answers)
  }

  /** Gate, then send, then the hooks; a refused send changes nothing. */
  function TrySend(b: Books, economy: Economy, roles: Roles, a: Attempt): Books {
    if Accepted(b, economy, roles, a) then RunHooks(b, economy, roles, AsExchange(a)) else b
  }

  /** An accepted send of the guest who pays for the room costs at least one token, whatever else it triggers;
      and of those who pass the gate, it is only that guest whose own words cost them anything. */
  lemma AdmittedSendCosts(b: Books, economy: Economy, roles: Roles, a: Attempt)
    requires economy.enabled && economy.costPerWord >= 1 && a.room.widget && IsGuest(roles, a.sender)
    requires Accepted(b, economy, roles, a)
    ensures PayingGuest(roles, a.room.members) == Some(a.sender) ==>
              0 <= Balance(TrySend(b, economy, roles, a), a.sender) < Balance(b, a.sender)
    ensures a.answers == [] ==>
              (Balance(TrySend(b, economy, roles, a), a.sender) < Balance(b, a.sender) <==>
               PayingGuest(roles, a.room.members) == Some(a.sender))
  {
    StrippedBodyHasWords(a.body);
    var x := AsExchange(a);
    HooksTakeThePrice(b, economy, roles, x, a.sender);
    var own := BilledTo(economy, roles, x.message, a.sender);
    PriceAdds(economy, own, WordsOfAll(economy, roles, x.answers, a.sender));
    if PayingGuest(roles, a.room.members) == Some(a.sender) {
      PositiveProduct(own, economy.costPerWord);
    }
  }

  lemma OneCharge(b: Books, economy: Economy, roles: Roles, x: Exchange)
    requires x.answers == []
    ensures RunHooks(b, economy, roles, x) == Charge(b, economy, roles, x.message)
  {
  }

  /** One send of a guest in a widget room, gate and charge together: with a positive balance, however small, it goes
      out and costs what its words cost, down to zero; without one it is refused and nothing moves. */
  lemma GuestSendIsExact(b: Books, economy: Economy, roles: Roles, a: Attempt, k: nat)
    requires economy.enabled && economy.costPerWord > 0 && a.room.widget && a.answers == []
    requires k < |a.room.members| && FirstGuestAt(roles, a.room.members, k) && a.sender == a.room.members[k]
    requires !AllSpace(a.body) && |Strip(a.body)| <= BODY_MAX
    ensures var after := TrySend(b, economy, roles, a);
            var left := Balance(b, a.sender) - |Split(Strip(a.body))| * economy.costPerWord;
            && (Accepted(b, economy, roles, a) <==> Balance(b, a.sender) > 0)
            && (Balance(b, a.sender) <= 0 ==> after == b)
            && (Balance(b, a.sender) > 0 ==> Balance(after, a.sender) == if left < 0 then 0 else left)
            && forall u | u != a.sender :: Balance(after, u) == Balance(b, u)
  {
    StrippedBodyHasWords(a.body);
    if Accepted(b, economy, roles, a) {
      ChargeIsExact(b, economy, roles, a.room.members, k, a.sender, Strip(a.body));
      assert a.room == MeteredRoom(true, a.room.members);
      OneCharge(b, economy, roles, AsExchange(a));
    }
  }

  /** The gate stops nobody else: bots and people, messages outside widget rooms, and all of them without the economy. */
  lemma OnlyGuestsAreGated(b: Books, economy: Economy, roles: Roles, room: Option<MeteredRoom>, sender: User)
    requires !economy.enabled || room.None? || !room.value.widget || !IsGuest(roles, sender)
    ensures MaySend(b, economy, roles, room, sender)
  {
  }

  /** A run of attempts with no credit in between, and how many of one guest's were accepted in rooms they pay for. */
  function TryAll(b: Books, economy: Economy, roles: Roles, attempts: seq<Attempt>): Books {
    if attempts == [] then b
    else TrySend(TryAll(b, economy, roles, attempts[..|attempts| - 1]), economy, roles, attempts[|attempts| - 1])
  }

  function AcceptedFrom(b: Books, economy: Economy, roles: Roles, attempts: seq<Attempt>, guest: User): nat {
    if attempts == [] then 0
    else
      var init, a := attempts[..|attempts| - 1], attempts[|attempts| - 1];
      AcceptedFrom(b, economy, roles, init, guest) +
      if a.sender == guest && a.room.widget && PayingGuest(roles, a.room.members) == Some(guest) &&
         Accepted(TryAll(b, economy, roles, init), economy, roles, a)
      then 1 else 0
  }

  /** Between credits a guest with balance B gets at most B sends past the gate, whatever anyone else sends. */
  lemma {:induction false} AtMostBalanceSends(b: Books, economy: Economy, roles: Roles, attempts: seq<Attempt>, guest: User)
    requires economy.enabled && economy.costPerWord >= 1 && IsGuest(roles, guest) && Balance(b, guest) >= 0
    ensures Balance(TryAll(b, economy, roles, attempts), guest) >= 0
    ensures AcceptedFrom(b, economy, roles, attempts, guest) +
            Balance(TryAll(b, economy, roles, attempts), guest) <= Balance(b, guest)
  {
    if attempts != [] {
      var init, a := attempts[..|attempts| - 1], attempts[|attempts| - 1];
      AtMostBalanceSends(b, economy, roles, init, guest);
      var now := TryAll(b, economy, roles, init);
      if Accepted(now, economy, roles, a) {
        HooksTakeThePrice(now, economy, roles, AsExchange(a), guest);
        if a.sender == guest && a.room.widget {
          AdmittedSendCosts(now, economy, roles, a);
        }
      }
    }
  }
}
