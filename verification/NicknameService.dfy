/** The nickname service over its live table, and the guest service that keeps trying generated nicknames. */
module NicknameServices {
  import opened Common
  import opened Conversations
  import opened Slugs
  import opened Nicknames

  class NicknameService {
    var rows: Table
    const rules: Rules

    constructor (rules: Rules)
      ensures this.rules == rules && rows == []
    {
      this.rules := rules;
      rows := [];
    }

    method SetNickname(u: User, nickname: string, now: int) returns (r: Result<(), NickError>)
      modifies this
      ensures (rows, r) == Nicknames.SetNickname(old(rows), rules, u, nickname, now)
      ensures rows == Step(old(rows), rules, Choose(u, nickname, now))
    {
      var invalid := ValidateNickname(nickname);
      if invalid.Some? {
        return Err(Invalid(invalid.value));
      }
      var conflicting := FindSlug(rows, rules.lower, nickname);
      if conflicting.Some? && rows[conflicting.value].user != u {
        var row := rows[conflicting.value];
        if row.banned && GraceElapsed(row, now, rules.grace) {
          rows := Remove(rows, conflicting.value);
        } else if row.banned {
          return Err(Banned);
        } else {
          return Err(Taken);
        }
      }
      var existing := FindUser(rows, u);
      if existing.Some? {
        rows := rows[existing.value := rows[existing.value].(nickname := nickname, setAt := now)];
      } else {
        rows := rows + [Row(u, nickname, now, false, None, false)];
      }
      r := Ok(());
    }

    method Ban(u: User, now: int) returns (r: Result<(), NickError>)
      modifies this
      ensures (rows, r) == Nicknames.Ban(old(rows), u, now)
      ensures rows == Step(old(rows), rules, DoBan(u, now))
    {
      var found := FindUser(rows, u);
      if found.None? {
        return Err(NotFound);
      }
      rows := rows[found.value := rows[found.value].(banned := true, bannedAt := Some(now))];
      r := Ok(());
    }

    method Unban(u: User) returns (r: Result<(), NickError>)
      modifies this
      ensures (rows, r) == Nicknames.Unban(old(rows), u)
      ensures forall now :: rows == Step(old(rows), rules, DoUnban(u, now))
    {
      var found := FindUser(rows, u);
      if found.None? {
        return Err(NotFound);
      }
      rows := rows[found.value := rows[found.value].(banned := false, bannedAt := None)];
      r := Ok(());
    }
  }

  // ---- Generated guest nicknames ---------------------------------------------------------------------------

  const MAX_NICKNAME_ATTEMPTS := 5

  ghost predicate HexSuffixes(suffixes: seq<string>) {
    forall k | 0 <= k < |suffixes| :: |suffixes[k]| == 8 && forall i | 0 <= i < 8 :: IsHex(suffixes[k][i])
  }

  /** The candidates in turn, as long as each one is taken: the table, and the nickname or the last error. */
  function AssignFirstFree(t: Table, rules: Rules, u: User, stem: string, suffixes: seq<string>, now: int)
    : (Table, Result<string, NickError>)
    requires suffixes != []
  {
    var candidate := Candidate(stem, suffixes[0]);
    var (after, r) := SetNickname(t, rules, u, candidate, now);
    if r.Ok? then (after, Ok(candidate))
    else if r.error == Taken && |suffixes| > 1 then AssignFirstFree(t, rules, u, stem, suffixes[1..], now)
    else (t, Err(r.error))
  }

  /** Giving up as taken means every single candidate was taken. */
  lemma {:induction false} GivesUpIffAllTaken(t: Table, rules: Rules, u: User, stem: string, suffixes: seq<string>, now: int)
    requires suffixes != []
    ensures AssignFirstFree(t, rules, u, stem, suffixes, now).1 == Err(Taken) <==>
              forall k | 0 <= k < |suffixes| :: IsTaken(t, rules, u, stem, suffixes[k], now)
    decreases |suffixes|
  {
    if IsTaken(t, rules, u, stem, suffixes[0], now) && |suffixes| > 1 {
      var rest := suffixes[1..];
      GivesUpIffAllTaken(t, rules, u, stem, rest, now);
      assert forall k | 1 <= k < |suffixes| :: suffixes[k] == rest[k - 1];
    }
  }

  predicate IsTaken(t: Table, rules: Rules, u: User, stem: string, suffix: string, now: int) {
    Obstacle(t, rules, u, Candidate(stem, suffix), now) == Some(Taken)
  }

  /** Success is the first candidate that is not taken, assigned as `set_nickname` does. */
  lemma {:induction false} SucceedsAtFirstFree(t: Table, rules: Rules, u: User, stem: string, suffixes: seq<string>,
                                               now: int)
    returns (k: nat)
    requires suffixes != [] && AssignFirstFree(t, rules, u, stem, suffixes, now).1.Ok?
    ensures k < |suffixes| && forall j | 0 <= j < k :: IsTaken(t, rules, u, stem, suffixes[j], now)
    ensures AssignFirstFree(t, rules, u, stem, suffixes, now) ==
            (SetNickname(t, rules, u, Candidate(stem, suffixes[k]), now).0, Ok(Candidate(stem, suffixes[k])))
    decreases |suffixes|
  {
    if IsTaken(t, rules, u, stem, suffixes[0], now) {
      var rest := suffixes[1..];
      var i := SucceedsAtFirstFree(t, rules, u, stem, rest, now);
      k := i + 1;
      assert suffixes[k] == rest[i];
      assert forall j | 1 <= j < k :: suffixes[j] == rest[j - 1];
    } else {
      k := 0;
    }
  }

  /** A generated nickname is never refused as invalid, and a guest who gets none leaves the directory as it was. */
  lemma {:induction false} FailureIsTakenOrBanned(t: Table, rules: Rules, u: User, displayName: string,
                                                  suffixes: seq<string>, now: int)
    requires suffixes != [] && HexSuffixes(suffixes)
    ensures var (after, r) := AssignFirstFree(t, rules, u, SlugifyBase(displayName, rules.lower), suffixes, now);
            r.Err? ==> after == t && (r.error == Taken || r.error == Banned)
    decreases |suffixes|
  {
    GeneratedNicknameIsValid(displayName, rules.lower, suffixes[0]);
    if IsTaken(t, rules, u, SlugifyBase(displayName, rules.lower), suffixes[0], now) && |suffixes| > 1 {
      assert forall k | 0 <= k < |suffixes| - 1 :: suffixes[1..][k] == suffixes[k + 1];
      FailureIsTakenOrBanned(t, rules, u, displayName, suffixes[1..], now);
    }
  }

  class GuestSessionService {
    const nicknames: NicknameService

    constructor (nicknames: NicknameService)
      ensures this.nicknames == nicknames
    {
      this.nicknames := nicknames;
    }

    /** `_assign_unique_nickname`; the random suffixes are given. */
    method AssignUniqueNickname(u: User, displayName: string, suffixes: seq<string>, now: int)
      returns (r: Result<string, NickError>)
      requires |suffixes| == 5
      modifies nicknames
      ensures (nicknames.rows, r) == AssignFirstFree(old(nicknames.rows), nicknames.rules, u,
                                                     SlugifyBase(displayName, nicknames.rules.lower), suffixes, now)
    {
      var base := SlugifyBase(displayName, nicknames.rules.lower);
      r := Err(Taken);
      for k := 0 to MAX_NICKNAME_ATTEMPTS
        invariant nicknames.rows == old(nicknames.rows) && r == Err(Taken)
        invariant AssignFirstFree(old(nicknames.rows), nicknames.rules, u, base, suffixes, now) ==
                  if k < |suffixes| then AssignFirstFree(old(nicknames.rows), nicknames.rules, u, base, suffixes[k..], now)
                  else (old(nicknames.rows), Err(Taken))
      {
        assert suffixes[k..][1..] == suffixes[k + 1..];
        var candidate := Candidate(base, suffixes[k]);
        var one := nicknames.SetNickname(u, candidate, now);
        if one.Ok? {
          return Ok(candidate);
        }
        if one.error != Taken {
          return Err(one.error);
        }
      }
    }
  }
}
