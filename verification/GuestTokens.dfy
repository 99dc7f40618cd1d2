/** Admin top-up and reset of guest balances, one guest at a time and all at once. */
module GuestTokens {
  import opened Common
  import opened Conversations
  import opened Ledger
  import opened WidgetMeter

  datatype AdminError = GuestNotFound | BadAmount

  /** The distinct guest ids of the session table, and everybody's role. */
  datatype Registry = Registry(guests: seq<User>, roles: Roles)

  predicate IsWidgetGuest(reg: Registry, u: User) {
    u in reg.guests && IsGuest(reg.roles, u)
  }

  function TopUp(b: Books, reg: Registry, u: User, amount: int): Result<Books, AdminError> {
    if !IsWidgetGuest(reg, u) then Err(GuestNotFound)
    else if amount <= 0 then Err(BadAmount)
    else Ok(Credit(b, u, amount, Adjustment))
  }

  /** Credit or debit the signed difference to the target; `None` when the ledger refuses the debit. */
  function SetBalance(b: Books, u: User, target: int): Option<Books> {
    var delta := target - Balance(b, u);
    if delta > 0 then Some(Credit(b, u, delta, Adjustment))
    else if delta < 0 then Debit(b, u, -delta, Adjustment)
    else Some(b)
  }

  function Reset(b: Books, reg: Registry, u: User, target: int): Result<Books, AdminError> {
    if !IsWidgetGuest(reg, u) then Err(GuestNotFound)
    else if target < 0 then Err(BadAmount)
    else match SetBalance(b, u, target) case Some(after) => Ok(after) case None => Err(BadAmount)
  }

  /** Guests one after the other; the first failure undoes the whole request. */
  function TopUpEach(b: Books, reg: Registry, todo: seq<User>, amount: int): Result<Books, AdminError> {
    if todo == [] then Ok(b)
    else
      match TopUpEach(b, reg, todo[..|todo| - 1], amount)
      case Err(e) => Err(e)
      case Ok(mid) => TopUp(mid, reg, todo[|todo| - 1], amount)
  }

  function ResetEach(b: Books, reg: Registry, todo: seq<User>, target: int): Result<Books, AdminError> {
    if todo == [] then Ok(b)
    else
      match ResetEach(b, reg, todo[..|todo| - 1], target)
      case Err(e) => Err(e)
      case Ok(mid) => Reset(mid, reg, todo[|todo| - 1], target)
  }

  function TopUpAll(b: Books, reg: Registry, amount: int): Result<Books, AdminError> {
    if amount <= 0 then Err(BadAmount) else TopUpEach(b, reg, reg.guests, amount)
  }

  function ResetAll(b: Books, reg: Registry, target: int): Result<Books, AdminError> {
    if target < 0 then Err(BadAmount) else ResetEach(b, reg, reg.guests, target)
  }

  /** A non-negative target is always reached exactly, from any balance; a negative one never is. */
  lemma SetBalanceIsExact(b: Books, u: User, target: int)
    requires Balance(b, u) >= 0
    ensures SetBalance(b, u, target).Some? <==> target >= 0
    ensures target >= 0 ==> Balance(SetBalance(b, u, target).value, u) == target
    ensures target >= 0 ==> forall v | v != u :: Balance(SetBalance(b, u, target).value, v) == Balance(b, v)
  {
  }

  /** One guest: who is none is not found, whatever the number; a top-up must be positive and a reset must not be
      negative; and then exactly that guest's balance is raised by the amount, or becomes the target. */
  lemma OneGuestIsExact(b: Books, reg: Registry, u: User, n: int)
    requires Balance(b, u) >= 0
    ensures var guest, up, re := u in reg.guests && IsGuest(reg.roles, u), TopUp(b, reg, u, n), Reset(b, reg, u, n);
            && (up.Ok? <==> guest && n > 0) && (re.Ok? <==> guest && n >= 0)
            && (up == Err(GuestNotFound) <==> !guest) && (re == Err(GuestNotFound) <==> !guest)
            && (up.Ok? ==> forall v :: Balance(up.value, v) == if v == u then Balance(b, u) + n else Balance(b, v))
            && (re.Ok? ==> forall v :: Balance(re.value, v) == if v == u then n else Balance(b, v))
            && (re.Ok? && Balance(b, u) == n ==> re.value == b)
  {
    SetBalanceIsExact(b, u, n);
  }

  lemma {:induction false} TopUpEachIsExact(b: Books, reg: Registry, todo: seq<User>, amount: int)
    requires amount > 0 && NoDup(todo) && forall u | u in todo :: u in reg.guests
    ensures TopUpEach(b, reg, todo, amount).Ok? <==> forall u | u in todo :: IsGuest(reg.roles, u)
    ensures TopUpEach(b, reg, todo, amount).Ok? ==>
              forall u :: Balance(TopUpEach(b, reg, todo, amount).value, u) == Balance(b, u) + if u in todo then amount else 0
  {
    if todo != [] {
      var init, last := todo[..|todo| - 1], todo[|todo| - 1];
      assert todo == init + [last];
      TopUpEachIsExact(b, reg, init, amount);
    }
  }

  lemma {:induction false} ResetEachIsExact(b: Books, reg: Registry, todo: seq<User>, target: int)
    requires target >= 0 && (forall u :: Balance(b, u) >= 0) && forall u | u in todo :: u in reg.guests
    ensures ResetEach(b, reg, todo, target).Ok? <==> forall u | u in todo :: IsGuest(reg.roles, u)
    ensures ResetEach(b, reg, todo, target).Ok? ==>
              forall u :: Balance(ResetEach(b, reg, todo, target).value, u) == if u in todo then target else Balance(b, u)
  {
    if todo != [] {
      var init, last := todo[..|todo| - 1], todo[|todo| - 1];
      assert todo == init + [last];
      ResetEachIsExact(b, reg, init, target);
      if ResetEach(b, reg, init, target).Ok? {
        SetBalanceIsExact(ResetEach(b, reg, init, target).value, last, target);
      }
    }
  }

  /** The bulk operations reach every session guest once and nobody else, or, when one of them is no longer a
      guest, do nothing at all. */
  lemma BulkIsExact(b: Books, reg: Registry, amount: int, target: int)
    requires amount > 0 && target >= 0 && NoDup(reg.guests) && forall u :: Balance(b, u) >= 0
    ensures TopUpAll(b, reg, amount).Ok? <==> forall u | u in reg.guests :: IsGuest(reg.roles, u)
    ensures ResetAll(b, reg, target).Ok? <==> TopUpAll(b, reg, amount).Ok?
    ensures TopUpAll(b, reg, amount).Ok? ==> forall u ::
              && Balance(TopUpAll(b, reg, amount).value, u) == Balance(b, u) + (if u in reg.guests then amount else 0)
              && Balance(ResetAll(b, reg, target).value, u) == (if u in reg.guests then target else Balance(b, u))
  {
    TopUpEachIsExact(b, reg, reg.guests, amount);
    ResetEachIsExact(b, reg, reg.guests, target);
  }

  /** A bulk request fails for a bad number before it looks at any guest, and otherwise only for a guest that is none. */
  lemma BulkRefusals(b: Books, reg: Registry, n: int)
    requires NoDup(reg.guests) && forall u :: Balance(b, u) >= 0
    ensures TopUpAll(b, reg, n) == Err(BadAmount) <==> n <= 0
    ensures ResetAll(b, reg, n) == Err(BadAmount) <==> n < 0
    ensures TopUpAll(b, reg, n) == Err(GuestNotFound) <==> n > 0 && exists u :: u in reg.guests && !IsGuest(reg.roles, u)
    ensures ResetAll(b, reg, n) == Err(GuestNotFound) <==> n >= 0 && exists u :: u in reg.guests && !IsGuest(reg.roles, u)
  {
    if n > 0 {
      TopUpEachIsExact(b, reg, reg.guests, n);
      EachFailsForNoGuest(b, reg, reg.guests, n);
    }
    if n >= 0 {
      ResetEachIsExact(b, reg, reg.guests, n);
      ResetFailsForNoGuest(b, reg, reg.guests, n);
    }
  }

  lemma {:induction false} EachFailsForNoGuest(b: Books, reg: Registry, todo: seq<User>, n: int)
    requires n > 0
    ensures TopUpEach(b, reg, todo, n).Err? ==> TopUpEach(b, reg, todo, n) == Err(GuestNotFound)
  {
    if todo != [] {
      EachFailsForNoGuest(b, reg, todo[..|todo| - 1], n);
    }
  }

  lemma {:induction false} ResetFailsForNoGuest(b: Books, reg: Registry, todo: seq<User>, n: int)
    requires n >= 0 && (forall u :: Balance(b, u) >= 0) && forall u | u in todo :: u in reg.guests
    ensures ResetEach(b, reg, todo, n).Err? ==> ResetEach(b, reg, todo, n) == Err(GuestNotFound)
  {
    if todo != [] {
      var init, last := todo[..|todo| - 1], todo[|todo| - 1];
      assert todo == init + [last];
      ResetFailsForNoGuest(b, reg, init, n);
      if ResetEach(b, reg, init, n).Ok? {
        ResetEachIsExact(b, reg, init, n);
        SetBalanceIsExact(ResetEach(b, reg, init, n).value, last, n);
      }
    }
  }

  /** Topping everyone up twice comes to the same balances as once with the sum, and of two resets the last counts. */
  lemma BulkTwice(b: Books, reg: Registry, first: int, second: int, target: int, last: int)
    requires first > 0 && second > 0 && target >= 0 && last >= 0 && NoDup(reg.guests) && forall u :: Balance(b, u) >= 0
    requires forall u | u in reg.guests :: IsGuest(reg.roles, u)
    ensures TopUpAll(b, reg, first).Ok? && TopUpAll(TopUpAll(b, reg, first).value, reg, second).Ok?
    ensures TopUpAll(b, reg, first + second).Ok? && ResetAll(b, reg, last).Ok?
    ensures forall u :: Balance(TopUpAll(TopUpAll(b, reg, first).value, reg, second).value, u) ==
                        Balance(TopUpAll(b, reg, first + second).value, u)
    ensures ResetAll(b, reg, target).Ok? && ResetAll(ResetAll(b, reg, target).value, reg, last).Ok?
    ensures forall u :: Balance(ResetAll(ResetAll(b, reg, target).value, reg, last).value, u) ==
                        Balance(ResetAll(b, reg, last).value, u)
  {
    BulkIsExact(b, reg, first, target);
    BulkIsExact(b, reg, first + second, last);
    BulkIsExact(TopUpAll(b, reg, first).value, reg, second, last);
    BulkIsExact(ResetAll(b, reg, target).value, reg, second, last);
  }

  /** A failure part of the way through is the outcome of the whole request. */
  lemma {:induction false} FailureSticks(b: Books, reg: Registry, todo: seq<User>, amount: int, k: nat)
    requires k <= |todo| && TopUpEach(b, reg, todo[..k], amount).Err?
    ensures TopUpEach(b, reg, todo, amount) == TopUpEach(b, reg, todo[..k], amount)
    decreases |todo|
  {
    if k == |todo| {
      assert todo[..k] == todo;
    } else {
      var init := todo[..|todo| - 1];
      assert init[..k] == todo[..k];
      FailureSticks(b, reg, init, amount, k);
    }
  }

  lemma {:induction false} ResetFailureSticks(b: Books, reg: Registry, todo: seq<User>, target: int, k: nat)
    requires k <= |todo| && ResetEach(b, reg, todo[..k], target).Err?
    ensures ResetEach(b, reg, todo, target) == ResetEach(b, reg, todo[..k], target)
    decreases |todo|
  {
    if k == |todo| {
      assert todo[..k] == todo;
    } else {
      var init := todo[..|todo| - 1];
      assert init[..k] == todo[..k];
      ResetFailureSticks(b, reg, init, target, k);
    }
  }
}
