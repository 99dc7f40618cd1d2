/** The admin service over the live ledger: each method is tied to its function in `GuestTokens`. */
module GuestTokenAdmin {
  import opened Common
  import opened Conversations
  import opened Ledger
  import opened WidgetMeter
  import opened GuestTokens

  class GuestTokenAdminService {
    const tokens: TokenService

    constructor (tokens: TokenService)
      ensures this.tokens == tokens
    {
      this.tokens := tokens;
    }

    method TopUp(reg: Registry, u: User, amount: int) returns (r: Result<int, AdminError>)
      modifies tokens
      ensures var spec := GuestTokens.TopUp(old(tokens.State()), reg, u, amount);
              if spec.Ok? then tokens.State() == spec.value && r == Ok(Balance(spec.value, u))
              else tokens.State() == old(tokens.State()) && r == Err(spec.error)
    {
      if !IsWidgetGuest(reg, u) {
        return Err(GuestNotFound);
      }
      if amount <= 0 {
        return Err(BadAmount);
      }
      tokens.CreditTokens(u, amount, Adjustment);
      var balance := tokens.GetBalance(u);
      r := Ok(balance);
    }

    method Reset(reg: Registry, u: User, target: int) returns (r: Result<int, AdminError>)
      requires Balance(tokens.State(), u) >= 0
      modifies tokens
      ensures var spec := GuestTokens.Reset(old(tokens.State()), reg, u, target);
              if spec.Ok? then tokens.State() == spec.value && r == Ok(target)
              else tokens.State() == old(tokens.State()) && r == Err(spec.error)
    {
      if !IsWidgetGuest(reg, u) {
        return Err(GuestNotFound);
      }
      if target < 0 {
        return Err(BadAmount);
      }
      var current := tokens.GetBalance(u);
      var delta := target - current;
      if delta > 0 {
        tokens.CreditTokens(u, delta, Adjustment);
      } else if delta < 0 {
        var ok := tokens.DebitTokens(u, -delta, Adjustment);
        assert ok;
      }
      var balance := tokens.GetBalance(u);
      r := Ok(balance);
    }

    /** The ledger is put back when one guest in the middle fails: nothing is committed in that case, by the route's
        own rollback for a bad amount and by the end of the session for a guest that is none any more. */
    method TopUpAll(reg: Registry, amount: int) returns (r: Result<nat, AdminError>)
      modifies tokens
      ensures var spec := GuestTokens.TopUpAll(old(tokens.State()), reg, amount);
              if spec.Ok? then tokens.State() == spec.value && r == Ok(|reg.guests|)
              else tokens.State() == old(tokens.State()) && r == Err(spec.error)
    {
      if amount <= 0 {
        return Err(BadAmount);
      }
      var before := tokens.balances;
      ghost var entriesBefore := tokens.entries;
      var affected := 0;
      for k := 0 to |reg.guests|
        invariant affected == k
        invariant TopUpEach(old(tokens.State()), reg, reg.guests[..k], amount) == Ok(tokens.State())
      {
        assert reg.guests[..k + 1][..k] == reg.guests[..k];
        var one := TopUp(reg, reg.guests[k], amount);
        if one.Err? {
          FailureSticks(old(tokens.State()), reg, reg.guests, amount, k + 1);
          tokens.balances := before;
          tokens.entries := entriesBefore;
          return Err(one.error);
        }
        affected := affected + 1;
      }
      assert reg.guests[..|reg.guests|] == reg.guests;
      r := Ok(affected);
    }

    method ResetAll(reg: Registry, target: int) returns (r: Result<nat, AdminError>)
      requires forall u :: Balance(tokens.State(), u) >= 0
      modifies tokens
      ensures var spec := GuestTokens.ResetAll(old(tokens.State()), reg, target);
              if spec.Ok? then tokens.State() == spec.value && r == Ok(|reg.guests|)
              else tokens.State() == old(tokens.State()) && r == Err(spec.error)
    {
      if target < 0 {
        return Err(BadAmount);
      }
      var before := tokens.balances;
      ghost var entriesBefore := tokens.entries;
      var affected := 0;
      for k := 0 to |reg.guests|
        invariant affected == k
        invariant forall u :: Balance(tokens.State(), u) >= 0
        invariant ResetEach(old(tokens.State()), reg, reg.guests[..k], target) == Ok(tokens.State())
      {
        assert reg.guests[..k + 1][..k] == reg.guests[..k];
        SetBalanceIsExact(tokens.State(), reg.guests[k], target);
        var one := Reset(reg, reg.guests[k], target);
        if one.Err? {
          ResetFailureSticks(old(tokens.State()), reg, reg.guests, target, k + 1);
          tokens.balances := before;
          tokens.entries := entriesBefore;
          return Err(one.error);
        }
        affected := affected + 1;
      }
      assert reg.guests[..|reg.guests|] == reg.guests;
      r := Ok(affected);
    }
  }
}
