/** The nickname directory: one public slug per user, bans, and the grace period after which a banned slug may be
    claimed. */
module Nicknames {
  import opened Common
  import opened Conversations
  import opened Slugs

  datatype Row = Row(user: User, nickname: string, setAt: int, banned: bool, bannedAt: Option<int>, searchHidden: bool)

  type Table = seq<Row>

  datatype NickError = Invalid(why: Slugs.Invalid) | Taken | Banned | NotFound

  /** The directory's settings: the grace period and the lower-casing behind `nickname_ci`. */
  datatype Rules = Rules(grace: int, lower: string -> string)

  /** `find_by_user_id` */
  function FindUser(t: Table, u: User): (r: Option<nat>)
    ensures r.Some? ==> r.value < |t| && t[r.value].user == u
    ensures r.None? ==> forall k | 0 <= k < |t| :: t[k].user != u
  {
    if t == [] then None
    else if t[|t| - 1].user == u then Some(|t| - 1)
    else FindUser(t[..|t| - 1], u)
  }

  /** `find_by_nickname_ci` */
  function FindSlug(t: Table, lower: string -> string, nickname: string): (r: Option<nat>)
    ensures r.Some? ==> r.value < |t| && lower(t[r.value].nickname) == lower(nickname)
    ensures r.None? ==> forall k | 0 <= k < |t| :: lower(t[k].nickname) != lower(nickname)
  {
    if t == [] then None
    else if lower(t[|t| - 1].nickname) == lower(nickname) then Some(|t| - 1)
    else FindSlug(t[..|t| - 1], lower, nickname)
  }

  predicate GraceElapsed(row: Row, now: int, grace: int) {
    row.bannedAt.Some? && now - row.bannedAt.value > grace
  }

  function Remove(t: Table, k: nat): Table
    requires k < |t|
  {
    t[..k] + t[k + 1..]
  }

  /** Why the slug cannot be had: it belongs to somebody else and is not a banned row past its grace period. */
  function Obstacle(t: Table, rules: Rules, u: User, nickname: string, now: int): Option<NickError> {
    match ValidateNickname(nickname)
    case Some(why) => Some(Invalid(why))
    case None =>
      match FindSlug(t, rules.lower, nickname)
      case None => None
      case Some(k) =>
        if t[k].user == u || (t[k].banned && GraceElapsed(t[k], now, rules.grace)) then None
        else if t[k].banned then Some(Banned)
        else Some(Taken)
  }

  /** The directory once the row in the way, if there is one, has been deleted. */
  function Cleared(t: Table, rules: Rules, u: User, nickname: string): Table {
    match FindSlug(t, rules.lower, nickname)
    case Some(k) => if t[k].user == u then t else Remove(t, k)
    case None => t
  }

  /** Rename the user's row, or give the user a first one. */
  function Assign(t: Table, u: User, nickname: string, now: int): Table {
    match FindUser(t, u)
    case Some(k) => t[k := t[k].(nickname := nickname, setAt := now)]
    case None => t + [Row(u, nickname, now, false, None, false)]
  }

  /** `set_nickname` */
  function SetNickname(t: Table, rules: Rules, u: User, nickname: string, now: int): (Table, Result<(), NickError>) {
    match Obstacle(t, rules, u, nickname, now)
    case Some(e) => (t, Err(e))
    case None => (Assign(Cleared(t, rules, u, nickname), u, nickname, now), Ok(()))
  }

  function Ban(t: Table, u: User, now: int): (Table, Result<(), NickError>) {
    match FindUser(t, u)
    case None => (t, Err(NotFound))
    case Some(k) => (t[k := t[k].(banned := true, bannedAt := Some(now))], Ok(()))
  }

  function Unban(t: Table, u: User): (Table, Result<(), NickError>) {
    match FindUser(t, u)
    case None => (t, Err(NotFound))
    case Some(k) => (t[k := t[k].(banned := false, bannedAt := None)], Ok(()))
  }

  /** `get_card`: the row a visitor may see under a nickname. */
  function GetCard(t: Table, lower: string -> string, nickname: string): Result<Row, NickError> {
    match FindSlug(t, lower, nickname)
    case None => Err(NotFound)
    case Some(k) => if t[k].banned || t[k].searchHidden then Err(NotFound) else Ok(t[k])
  }

  datatype Act = Choose(user: User, nickname: string, now: int) | DoBan(user: User, now: int) | DoUnban(user: User, now: int)

  function Step(t: Table, rules: Rules, a: Act): Table {
    match a
    case Choose(u, nickname, now) => SetNickname(t, rules, u, nickname, now).0
    case DoBan(u, now) => Ban(t, u, now).0
    case DoUnban(u, _) => Unban(t, u).0
  }

  function Run(rules: Rules, acts: seq<Act>): Table {
    if acts == [] then [] else Step(Run(rules, acts[..|acts| - 1]), rules, acts[|acts| - 1])
  }

  // ---- The directory's invariant ---------------------------------------------------------------------------

  /** One row per user, one row per lower-cased slug, only valid nicknames, and a ban date exactly on banned rows. */
  ghost predicate Sound(t: Table, lower: string -> string) {
    && (forall i, j | 0 <= i < j < |t| :: t[i].user != t[j].user)
    && (forall i, j | 0 <= i < j < |t| :: lower(t[i].nickname) != lower(t[j].nickname))
    && (forall i | 0 <= i < |t| :: ValidateNickname(t[i].nickname) == None && (t[i].banned <==> t[i].bannedAt.Some?))
  }

  lemma {:induction false} RemoveKeepsSound(t: Table, lower: string -> string, k: nat)
    requires Sound(t, lower) && k < |t|
    ensures Sound(Remove(t, k), lower)
  {
    var s := Remove(t, k);
    assert forall i | 0 <= i < |s| :: s[i] == t[if i < k then i else i + 1];
  }

  lemma AssignKeepsSound(t: Table, lower: string -> string, u: User, nickname: string, now: int)
    requires Sound(t, lower) && ValidateNickname(nickname) == None
    requires forall k | 0 <= k < |t| :: t[k].user == u || lower(t[k].nickname) != lower(nickname)
    ensures Sound(Assign(t, u, nickname, now), lower)
  {
    var found := FindUser(t, u);
    if found.Some? {
      assert forall k | 0 <= k < |t| && k != found.value :: t[k].user != u;
    }
  }

  /** Nothing but the user's own row is left under the slug once the way has been cleared. */
  lemma ClearedMakesRoom(t: Table, rules: Rules, u: User, nickname: string)
    requires Sound(t, rules.lower)
    ensures Sound(Cleared(t, rules, u, nickname), rules.lower)
    ensures forall row | row in Cleared(t, rules, u, nickname) ::
              row in t && (row.user == u || rules.lower(row.nickname) != rules.lower(nickname))
    ensures forall row | row in t && (row.user == u || rules.lower(row.nickname) != rules.lower(nickname)) ::
              row in Cleared(t, rules, u, nickname)
  {
    var found := FindSlug(t, rules.lower, nickname);
    if found.Some? && t[found.value].user != u {
      RemoveKeepsSound(t, rules.lower, found.value);
    }
  }

  lemma StepKeepsSound(t: Table, rules: Rules, a: Act)
    requires Sound(t, rules.lower)
    ensures Sound(Step(t, rules, a), rules.lower)
  {
    if a.Choose? && Obstacle(t, rules, a.user, a.nickname, a.now) == None {
      ClearedMakesRoom(t, rules, a.user, a.nickname);
      AssignKeepsSound(Cleared(t, rules, a.user, a.nickname), rules.lower, a.user, a.nickname, a.now);
    }
  }

  /** After any run: one row per user and, case-insensitively, one per slug. */
  lemma {:induction false} DirectoryAlwaysSound(rules: Rules, acts: seq<Act>)
    ensures Sound(Run(rules, acts), rules.lower)
  {
    if acts != [] {
      DirectoryAlwaysSound(rules, acts[..|acts| - 1]);
      StepKeepsSound(Run(rules, acts[..|acts| - 1]), rules, acts[|acts| - 1]);
    }
  }

  // ---- What one call does ----------------------------------------------------------------------------------

  /** A row that stands between the user and the slug. */
  predicate InTheWay(row: Row, rules: Rules, u: User, nickname: string) {
    row.user != u && rules.lower(row.nickname) == rules.lower(nickname)
  }

  /** The flags of the directory's administrators and of its user are the same on both rows. */
  predicate SameFlags(a: Row, b: Row) {
    a.banned == b.banned && a.bannedAt == b.bannedAt && a.searchHidden == b.searchHidden
  }

  /** The user's row as a choice leaves it: with the old flags, or with none where it is the first. */
  ghost predicate IsChosen(t: Table, own: Row, u: User, nickname: string, now: int) {
    && own.user == u && own.nickname == nickname && own.setAt == now
    && (forall was | was in t && was.user == u :: SameFlags(own, was))
    && ((forall was | was in t :: was.user != u) ==> !own.banned && own.bannedAt.None? && !own.searchHidden)
  }

  lemma ObstacleIsExact(t: Table, rules: Rules, u: User, nickname: string, now: int)
    requires Sound(t, rules.lower)
    ensures Obstacle(t, rules, u, nickname, now) == None <==>
              ValidateNickname(nickname) == None &&
              forall row | row in t && InTheWay(row, rules, u, nickname) ::
                row.banned && now - row.bannedAt.value > rules.grace
  {
  }

  /** A nickname can be had exactly when it is valid and whoever else holds the slug was banned more than the grace
      period ago; the caller then holds it with the caller's old flags (none on a first row), every other row stays,
      and the holder's row is gone. */
  lemma SetNicknameIsExact(t: Table, rules: Rules, u: User, nickname: string, now: int)
    requires Sound(t, rules.lower)
    ensures var (after, r) := SetNickname(t, rules, u, nickname, now);
            && (r.Ok? <==> ValidateNickname(nickname) == None &&
                           forall row | row in t && InTheWay(row, rules, u, nickname) ::
                             row.banned && now - row.bannedAt.value > rules.grace)
            && (r.Err? ==> after == t)
            && (r.Ok? ==> exists own :: own in after && IsChosen(t, own, u, nickname, now))
            && (r.Ok? ==> forall row: Row | row.user != u :: row in after <==> row in t && !InTheWay(row, rules, u, nickname))
  {
    ObstacleIsExact(t, rules, u, nickname, now);
    if Obstacle(t, rules, u, nickname, now) == None {
      var mid := Cleared(t, rules, u, nickname);
      ClearedMakesRoom(t, rules, u, nickname);
      AssignKeepsOthers(mid, u, nickname, now);
      AssignKeepsFlags(mid, u, nickname, now);
      ChosenBehindCleared(t, rules, u, nickname, now);
    }
  }

  lemma ChosenBehindCleared(t: Table, rules: Rules, u: User, nickname: string, now: int)
    requires forall row | row in Cleared(t, rules, u, nickname) :: row in t
    requires forall row | row in t && row.user == u :: row in Cleared(t, rules, u, nickname)
    ensures forall own | IsChosen(Cleared(t, rules, u, nickname), own, u, nickname, now) ::
              IsChosen(t, own, u, nickname, now)
  {
  }

  lemma AssignKeepsFlags(t: Table, u: User, nickname: string, now: int)
    requires forall i, j | 0 <= i < j < |t| :: t[i].user != t[j].user
    ensures exists own :: own in Assign(t, u, nickname, now) && IsChosen(t, own, u, nickname, now)
  {
    var after := Assign(t, u, nickname, now);
    var found := FindUser(t, u);
    var at := if found.Some? then found.value else |t|;
    assert after[at] in after;
    if found.Some? {
      assert t[at] in t;
    }
    assert IsChosen(t, after[at], u, nickname, now);
  }

  lemma AssignKeepsOthers(t: Table, u: User, nickname: string, now: int)
    ensures forall row: Row | row.user != u :: row in Assign(t, u, nickname, now) <==> row in t
  {
    var after := Assign(t, u, nickname, now);
    forall row: Row | row.user != u && row in t
      ensures row in after
    {
      var i :| 0 <= i < |t| && t[i] == row;
      assert after[i] == row;
    }
  }

  /** Why a nickname is refused: it is invalid; or valid but somebody else's, who is not banned, and then it is taken;
      or somebody else's whose ban is no older than the grace period. */
  lemma RefusalsAreExact(t: Table, rules: Rules, u: User, nickname: string, now: int)
    requires Sound(t, rules.lower)
    ensures var r, valid := SetNickname(t, rules, u, nickname, now).1, ValidateNickname(nickname) == None;
            && (forall why :: r == Err(Invalid(why)) <==> ValidateNickname(nickname) == Some(why))
            && (r == Err(Taken) <==> valid && exists row :: row in t && InTheWay(row, rules, u, nickname) && !row.banned)
            && (r == Err(Banned) <==>
                  valid && exists row :: row in t && InTheWay(row, rules, u, nickname) && row.banned &&
                                         now - row.bannedAt.value <= rules.grace)
            && r != Err(NotFound)
  {
    forall row | row in t && InTheWay(row, rules, u, nickname)
      ensures FindSlug(t, rules.lower, nickname).Some? && t[FindSlug(t, rules.lower, nickname).value] == row
    {
      assert FindSlug(t, rules.lower, nickname).Some?;
    }
    var found := FindSlug(t, rules.lower, nickname);
    if found.Some? && t[found.value].user != u {
      assert t[found.value] in t && InTheWay(t[found.value], rules, u, nickname);
    }
  }

  /** Banning and lifting a ban work exactly for users who have a row; they set that row's ban and date, or clear both,
      and leave the rest of it and every other row alone. */
  lemma BansAreExact(t: Table, u: User, now: int, lower: string -> string)
    requires Sound(t, lower)
    ensures var (b, banned) := Ban(t, u, now);
            var (c, lifted) := Unban(t, u);
            var known := exists row :: row in t && row.user == u;
            && (banned.Ok? <==> known) && (lifted.Ok? <==> known)
            && (!known ==> b == t && c == t && banned == Err(NotFound) && lifted == Err(NotFound))
            && |b| == |t| == |c|
            && forall k | 0 <= k < |t| ::
                 && b[k] == (if t[k].user == u then t[k].(banned := true, bannedAt := Some(now)) else t[k])
                 && c[k] == (if t[k].user == u then t[k].(banned := false, bannedAt := None) else t[k])
  {
    FindUserIsExact(t, u);
    if FindUser(t, u).None? {
      assert forall k | 0 <= k < |t| :: t[k] in t;
    }
  }

  /** Exactly the rows that are neither banned nor hidden have a card, under any spelling of their slug. */
  lemma CardIsExact(t: Table, lower: string -> string, nickname: string, row: Row)
    requires Sound(t, lower)
    ensures GetCard(t, lower, nickname) == Ok(row) <==>
              row in t && lower(row.nickname) == lower(nickname) && !row.banned && !row.searchHidden
  {
  }

  /** Lifting a ban undoes it exactly when the user was not under an earlier ban. */
  lemma {:induction false} UnbanUndoesBan(t: Table, u: User, now: int, lower: string -> string)
    requires Sound(t, lower) && FindUser(t, u).Some?
    ensures Unban(Ban(t, u, now).0, u).0 == t <==> !t[FindUser(t, u).value].banned
  {
    var k := FindUser(t, u).value;
    var banned := Ban(t, u, now).0;
    if !t[k].banned {
      assert Unban(banned, u).0 == t[k := t[k].(banned := false, bannedAt := None)] == t;
    } else {
      assert Unban(banned, u).0[k] != t[k];
    }
  }

  // ---- Bans over whole runs --------------------------------------------------------------------------------

  /** u has a row that was banned at `since` or later. */
  ghost predicate BannedSince(t: Table, u: User, since: int) {
    exists row :: row in t && row.user == u && row.banned && row.bannedAt.Some? && row.bannedAt.value >= since
  }

  /** One act within the grace period, other than lifting the ban, leaves the ban in place. */
  lemma StepKeepsBan(t: Table, rules: Rules, a: Act, u: User, since: int)
    requires Sound(t, rules.lower) && BannedSince(t, u, since)
    requires since <= a.now <= since + rules.grace && !(a.DoUnban? && a.user == u)
    ensures BannedSince(Step(t, rules, a), u, since)
  {
    var row :| row in t && row.user == u && row.banned && row.bannedAt.Some? && row.bannedAt.value >= since;
    var after := Step(t, rules, a);
    match a
    case Choose(v, nickname, now) =>
      SetNicknameIsExact(t, rules, v, nickname, now);
      if v != u {
        assert row in after;
      }
    case DoBan(v, now) =>
      var i :| 0 <= i < |t| && t[i] == row;
      assert after[i] in after;
    case DoUnban(v, now) =>
      var i :| 0 <= i < |t| && t[i] == row;
      assert after[i] == row;
  }

  lemma BanTakes(t: Table, u: User, now: int)
    requires FindUser(t, u).Some?
    ensures BannedSince(Ban(t, u, now).0, u, now)
  {
    assert Ban(t, u, now).0[FindUser(t, u).value] in Ban(t, u, now).0;
  }

  lemma {:induction false} BanLasts(rules: Rules, start: seq<Act>, u: User, since: int, after: seq<Act>)
    requires BannedSince(Run(rules, start), u, since)
    requires forall a | a in after :: since <= a.now <= since + rules.grace && !(a.DoUnban? && a.user == u)
    ensures BannedSince(Run(rules, start + after), u, since)
    decreases |after|
  {
    if after == [] {
      assert start + after == start;
    } else {
      var init, last := after[..|after| - 1], after[|after| - 1];
      assert (start + after)[..|start + after| - 1] == start + init && last in after;
      assert forall a | a in init :: a in after;
      BanLasts(rules, start, u, since, init);
      DirectoryAlwaysSound(rules, start + init);
      StepKeepsBan(Run(rules, start + init), rules, last, u, since);
    }
  }

  /** A ban at `since`, with no later unban, holds at every moment up to `since + grace`: whatever anyone renames or
      claims, u keeps a row, the row is banned, and no card anywhere shows u. */
  lemma BanHoldsThroughGrace(rules: Rules, before: seq<Act>, u: User, since: int, after: seq<Act>, nickname: string)
    requires FindUser(Run(rules, before), u).Some?
    requires forall a | a in after :: since <= a.now <= since + rules.grace && !(a.DoUnban? && a.user == u)
    ensures var t := Run(rules, before + [DoBan(u, since)] + after);
            && BannedSince(t, u, since)
            && (GetCard(t, rules.lower, nickname).Ok? ==> GetCard(t, rules.lower, nickname).value.user != u)
  {
    var start := before + [DoBan(u, since)];
    assert start[..|start| - 1] == before;
    BanTakes(Run(rules, before), u, since);
    BanLasts(rules, start, u, since, after);
    DirectoryAlwaysSound(rules, start + after);
  }

  lemma FindUserIsExact(t: Table, u: User)
    ensures FindUser(t, u).Some? <==> exists row :: row in t && row.user == u
  {
    if FindUser(t, u).Some? {
      assert t[FindUser(t, u).value] in t;
    }
  }

  lemma ClaimOutcome(t: Table, rules: Rules, u: User, nickname: string, now: int, row: Row)
    requires Sound(t, rules.lower) && row in t && InTheWay(row, rules, u, nickname)
    ensures Obstacle(t, rules, u, nickname, now) == None <==>
              ValidateNickname(nickname) == None && row.banned && now - row.bannedAt.value > rules.grace
  {
  }

  lemma OneRowEach(t: Table, lower: string -> string, x: Row, y: Row)
    requires Sound(t, lower) && x in t && y in t && x.user == y.user
    ensures x == y
  {
  }

  lemma HolderIsGone(t: Table, rules: Rules, u: User, nickname: string, now: int, row: Row)
    requires Sound(t, rules.lower) && row in t && InTheWay(row, rules, u, nickname)
    requires Obstacle(t, rules, u, nickname, now) == None
    ensures FindUser(SetNickname(t, rules, u, nickname, now).0, row.user) == None
  {
    var after := SetNickname(t, rules, u, nickname, now).0;
    SetNicknameIsExact(t, rules, u, nickname, now);
    forall x | x in after
      ensures x.user != row.user
    {
      if x.user == row.user {
        OneRowEach(t, rules.lower, x, row);
      }
    }
    FindUserIsExact(after, row.user);
  }

  lemma ClaimRemovesHolder(t: Table, rules: Rules, a: Act, row: Row)
    requires Sound(t, rules.lower) && row in t && a.Choose? && InTheWay(row, rules, a.user, a.nickname)
    ensures FindUser(Step(t, rules, a), row.user).None? <==>
              ValidateNickname(a.nickname) == None && row.banned && a.now - row.bannedAt.value > rules.grace
  {
    ClaimOutcome(t, rules, a.user, a.nickname, a.now, row);
    if Obstacle(t, rules, a.user, a.nickname, a.now) == None {
      HolderIsGone(t, rules, a.user, a.nickname, a.now, row);
    } else {
      FindUserIsExact(t, row.user);
    }
  }

  lemma OthersKeepTheirRows(t: Table, rules: Rules, a: Act, row: Row)
    requires Sound(t, rules.lower) && row in t && !(a.Choose? && InTheWay(row, rules, a.user, a.nickname))
    ensures FindUser(Step(t, rules, a), row.user).Some?
  {
    var after := Step(t, rules, a);
    FindUserIsExact(after, row.user);
    if a.Choose? {
      SetNicknameIsExact(t, rules, a.user, a.nickname, a.now);
      assert row.user != a.user ==> row in after;
    } else {
      var i :| 0 <= i < |t| && t[i] == row;
      assert after[i] in after && after[i].user == row.user;
    }
  }

  /** A row goes away exactly when somebody else validly claims its slug more than the grace period after its ban. */
  lemma RowsGoOnlyByClaim(t: Table, rules: Rules, a: Act, row: Row)
    requires Sound(t, rules.lower) && row in t
    ensures FindUser(Step(t, rules, a), row.user).None? <==>
              && a.Choose? && InTheWay(row, rules, a.user, a.nickname) && ValidateNickname(a.nickname) == None
              && row.banned && a.now - row.bannedAt.value > rules.grace
  {
    if a.Choose? && InTheWay(row, rules, a.user, a.nickname) {
      ClaimRemovesHolder(t, rules, a, row);
    } else {
      OthersKeepTheirRows(t, rules, a, row);
    }
  }
}
