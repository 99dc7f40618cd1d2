/** The transfer service over the live ledger and chat, tied to `Transfers.Transfer`. */
module TokenTransferServices {
  import opened Common
  import opened Conversations
  import opened MessageServices
  import opened Ledger
  import opened Transfers

  class TokenTransferService {
    const tokens: TokenService
    const chat: MessageService
    var records: seq<Record>

    ghost function State(): World
      reads this, tokens, chat
    {
      World(tokens.State(), records, chat.State())
    }

    constructor (tokens: TokenService, chat: MessageService)
      ensures this.tokens == tokens && this.chat == chat && records == []
    {
      this.tokens := tokens;
      this.chat := chat;
      records := [];
    }

    method Transfer(sender: User, target: Option<Listing>, amount: Amount, note: Option<string>, now: int)
      returns (r: Result<Receipt, TransferError>)
      modifies this, tokens, chat
      ensures State() == Transfers.Transfer(old(State()), sender, target, amount, note, now).0
      ensures r == Transfers.Transfer(old(State()), sender, target, amount, note, now).1
      ensures State() == Transfers.Apply(old(State()), OpTransfer(sender, target, amount, note, now))
    {
      if amount.NotAnInt? || amount.n <= 0 {
        return Err(BadAmount);
      }
      if target.None? || target.value.banned || target.value.searchHidden {
        return Err(NicknameNotFound);
      }
      var to := target.value.user;
      if to == sender {
        return Err(SelfTransfer);
      }
      var ok := tokens.DebitTokens(sender, amount.n, Ledger.Transfer);
      if !ok {
        return Err(InsufficientTokens);
      }
      var left := tokens.GetBalance(sender);
      tokens.CreditTokens(to, amount.n, Ledger.Transfer);
      var id := |records|;
      records := records + [Record(sender, to, amount.n, note)];
      var conv := chat.StartOrGet(sender, to);
      assert conv.Ok?;
      var posted := chat.PostSystemMessage(conv.value, sender, TRANSFER_KIND, id, now);
      r := Ok(Receipt(id, to, amount.n, left));
    }
  }
}
