/** The core token ledger, as far as this plugin relies on it: a balance per user, credits that always go
    through, and debits that fail without effect when the balance is short. */
module Ledger {
  import opened Common
  import opened Conversations

  datatype Origin = Transfer | Usage | Adjustment | InitialGrant

  /** One ledger transaction; a debit has a negative delta. */
  datatype Entry = Entry(user: User, delta: int, origin: Origin)

  datatype Books = Books(balances: map<User, int>, entries: seq<Entry>)

  const NO_BOOKS := Books(map[], [])

  function Balance(b: Books, u: User): int {
    if u in b.balances then b.balances[u] else 0
  }

  function Move(b: Books, u: User, delta: int, origin: Origin): Books {
    Books(b.balances[u := Balance(b, u) + delta], b.entries + [Entry(u, delta, origin)])
  }

  /** `credit_tokens` */
  function Credit(b: Books, u: User, amount: nat, origin: Origin): Books {
    Move(b, u, amount, origin)
  }

  /** `debit_tokens`; `None` stands for the exception it raises on an overdraw. */
  function Debit(b: Books, u: User, amount: nat, origin: Origin): Option<Books> {
    if Balance(b, u) < amount then None else Some(Move(b, u, 0 - amount, origin))
  }

  // ---- Sums --------------------------------------------------------------------------------------------

  /** The balances of the given users together. */
  ghost function SumOver(balances: map<User, int>, users: set<User>): int
    requires users <= balances.Keys
  {
    if users == {} then 0
    else var u :| u in users; balances[u] + SumOver(balances, users - {u})
  }

  /** All balances together. */
  ghost function Total(balances: map<User, int>): int {
    SumOver(balances, balances.Keys)
  }

  /** The choice of the next user does not matter to the sum. */
  lemma {:induction false} SumWithout(balances: map<User, int>, users: set<User>, v: User)
    requires users <= balances.Keys && v in users
    ensures SumOver(balances, users) == balances[v] + SumOver(balances, users - {v})
    decreases users
  {
    var u :| u in users && SumOver(balances, users) == balances[u] + SumOver(balances, users - {u});
    if u != v {
      SumWithout(balances, users - {u}, v);
      assert users - {u} - {v} == users - {v} - {u};
      SumWithout(balances, users - {v}, u);
    }
  }

  lemma {:induction false} SumAgrees(a: map<User, int>, b: map<User, int>, users: set<User>)
    requires users <= a.Keys && users <= b.Keys && forall u | u in users :: a[u] == b[u]
    ensures SumOver(a, users) == SumOver(b, users)
    decreases users
  {
    if users != {} {
      var u :| u in users && SumOver(a, users) == a[u] + SumOver(a, users - {u});
      SumAgrees(a, b, users - {u});
      SumWithout(b, users, u);
    }
  }

  lemma TotalAfterUpdate(balances: map<User, int>, u: User, value: int)
    ensures Total(balances[u := value]) == Total(balances) - (if u in balances then balances[u] else 0) + value
  {
    var after, others := balances[u := value], balances.Keys - {u};
    assert after.Keys - {u} == others;
    SumWithout(after, after.Keys, u);
    SumAgrees(balances, after, others);
    if u in balances {
      SumWithout(balances, balances.Keys, u);
    } else {
      assert others == balances.Keys;
    }
  }

  /** Every movement changes the total by its delta, and nobody else's balance. */
  lemma MoveMovesTotal(b: Books, u: User, delta: int, origin: Origin)
    ensures Total(Move(b, u, delta, origin).balances) == Total(b.balances) + delta
    ensures forall v :: Balance(Move(b, u, delta, origin), v) == Balance(b, v) + if v == u then delta else 0
  {
    TotalAfterUpdate(b.balances, u, Balance(b, u) + delta);
  }

  /** A credit always goes through, a debit exactly when the balance covers it; either moves that one balance by the
      amount and leaves one entry that says so. */
  lemma CreditAndDebitAreExact(b: Books, u: User, amount: nat, origin: Origin)
    ensures var c := Credit(b, u, amount, origin);
            && c.entries == b.entries + [Entry(u, amount, origin)]
            && forall v :: Balance(c, v) == if v == u then Balance(b, u) + amount else Balance(b, v)
    ensures var d := Debit(b, u, amount, origin);
            && (d.Some? <==> Balance(b, u) >= amount)
            && (d.Some? ==> d.value.entries == b.entries + [Entry(u, 0 - amount, origin)])
            && (d.Some? ==> forall v :: Balance(d.value, v) == if v == u then Balance(b, u) - amount else Balance(b, v))
  {
  }

  /** The non-transfer movements of one user. */
  function NetOf(entries: seq<Entry>, u: User): int {
    if entries == [] then 0
    else
      var e := entries[|entries| - 1];
      NetOf(entries[..|entries| - 1], u) + if e.user == u && !e.origin.Transfer? then e.delta else 0
  }

  /** The non-transfer movements of everybody. */
  function NetOfAll(entries: seq<Entry>): int {
    if entries == [] then 0
    else
      var e := entries[|entries| - 1];
      NetOfAll(entries[..|entries| - 1]) + if e.origin.Transfer? then 0 else e.delta
  }

  class TokenService {
    var balances: map<User, int>
    ghost var entries: seq<Entry>

    ghost function State(): Books
      reads this
    {
      Books(balances, entries)
    }

    constructor ()
      ensures State() == NO_BOOKS
    {
      balances := map[];
      entries := [];
    }

    method GetBalance(u: User) returns (amount: int)
      ensures amount == Balance(State(), u)
    {
      amount := if u in balances then balances[u] else 0;
    }

    method CreditTokens(u: User, amount: nat, origin: Origin)
      modifies this
      ensures State() == Credit(old(State()), u, amount, origin)
    {
      balances := balances[u := (if u in balances then balances[u] else 0) + amount];
      entries := entries + [Entry(u, amount, origin)];
    }

    method DebitTokens(u: User, amount: nat, origin: Origin) returns (ok: bool)
      modifies this
      ensures ok <==> Debit(old(State()), u, amount, origin).Some?
      ensures State() == if ok then Debit(old(State()), u, amount, origin).value else old(State())
    {
      var balance := if u in balances then balances[u] else 0;
      ok := balance >= amount;
      if ok {
        balances := balances[u := balance - amount];
        entries := entries + [Entry(u, 0 - amount, origin)];
      }
    }
  }
}
