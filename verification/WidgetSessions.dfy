/** Widget guests: starting a session, coming back to it, and wiping it. */
module WidgetSessions {
  import opened Common
  import opened Text
  import opened Conversations
  import opened Ledger
  import opened WidgetMeter
  import opened Rooms
  import GuestTokens

  datatype Session = Session(guest: User, slug: string, room: Option<nat>)

  datatype RoomRow = RoomRow(id: nat, slug: Option<string>, room: Room)

  /** A fresh public start: who was provisioned, and the economy settings at that moment. */
  datatype Provision = Provision(guest: User, budget: Budget)

  /** The tables behind the widget, and the history of fresh starts. */
  datatype Site = Site(
    nextUser: User, roles: Roles, rooms: seq<RoomRow>, nextRoom: nat, conversations: seq<Conversation>, sessions: seq<Session>,
    books: Books, history: seq<Provision>)

  function Empty(nextUser: User, roles: Roles): Site {
    Site(nextUser, roles, [], 0, [], [], NO_BOOKS, [])
  }

  // ---- Starting --------------------------------------------------------------------------------------------

  datatype Widget = Widget(isPublic: bool, members: seq<string>)

  datatype Budget = Budget(enabled: bool, initial: int)

  /** One start request: the stored widget, what the visitor presents, the nickname directory, the economy settings,
      and whether a nickname could be found for a new guest. */
  datatype Request = Request(
    slug: string, widget: Option<Widget>, displayName: Option<string>, caller: Option<User>, callerNamed: bool,
    presented: Option<User>, directory: map<string, User>, budget: Budget, provisions: bool)

  datatype StartError =
    | WidgetNotFound | AuthRequired | NicknameRequired | DisplayNameRequired | UnknownMember(nickname: string)
    | HumanMember(user: User) | NoNickname

  datatype Started = Started(room: nat, guest: Option<User>)

  function ResolveMembers(directory: map<string, User>, nicknames: seq<string>): Result<seq<User>, StartError> {
    if nicknames == [] then Ok([])
    else
      match ResolveMembers(directory, nicknames[..|nicknames| - 1])
      case Err(e) => Err(e)
      case Ok(ids) =>
        var last := nicknames[|nicknames| - 1];
        if last in directory then Ok(ids + [directory[last]]) else Err(UnknownMember(last))
  }

  predicate IsBot(roles: Roles, u: User) {
    u in roles && roles[u] == Bot
  }

  /** `_reject_human_members`: the first configured member that is not a bot. */
  function FirstHuman(roles: Roles, ids: seq<User>): (r: Option<User>)
    ensures r.Some? ==> r.value in ids && !IsBot(roles, r.value)
    ensures r.None? ==> forall u | u in ids :: IsBot(roles, u)
  {
    if ids == [] then None else if !IsBot(roles, ids[0]) then Some(ids[0]) else FirstHuman(roles, ids[1..])
  }

  /** `find_for_widget` */
  function FindForWidget(sessions: seq<Session>, guest: User, slug: string): (r: Option<Session>)
    ensures r.Some? ==> r.value in sessions && r.value.guest == guest && r.value.slug == slug
    ensures r.None? ==> forall s | s in sessions :: s.guest != guest || s.slug != slug
  {
    if sessions == [] then None
    else if sessions[0].guest == guest && sessions[0].slug == slug then Some(sessions[0])
    else FindForWidget(sessions[1..], guest, slug)
  }

  /** `_reuse_guest_session` */
  function Reuse(site: Site, slug: string, presented: Option<User>): Option<Started> {
    if presented.None? || !IsGuest(site.roles, presented.value) then None
    else
      match FindForWidget(site.sessions, presented.value, slug)
      case None => None
      case Some(session) => if session.room.None? then None else Some(Started(session.room.value, presented))
  }

  function OpenRoom(site: Site, creator: User, ids: seq<User>, slug: string): Site {
    site.(rooms := site.rooms + [RoomRow(site.nextRoom, Some(slug), CreateRoom(creator, ids))], nextRoom := site.nextRoom + 1)
  }

  /** What `_grant_initial_token_budget` grants. */
  function Granted(budget: Budget): nat {
    if budget.enabled && budget.initial > 0 then budget.initial else 0
  }

  function Grant(site: Site, guest: User, budget: Budget): Site {
    if Granted(budget) == 0 then site else site.(books := Credit(site.books, guest, Granted(budget), InitialGrant))
  }

  /** A new guest with a room, a session and the initial grant. */
  function ProvisionGuest(site: Site, req: Request, ids: seq<User>): Site {
    var guest := site.nextUser;
    var provisioned := site.(nextUser := guest + 1, roles := site.roles[guest := Guest]);
    var housed := OpenRoom(provisioned, guest, ids, req.slug);
    var linked := housed.(sessions := housed.sessions + [Session(guest, req.slug, Some(site.nextRoom))]);
    Grant(linked, guest, req.budget).(history := site.history + [Provision(guest, req.budget)])
  }

  function StartPublic(site: Site, req: Request, members: seq<string>): (Site, Result<Started, StartError>) {
    match Reuse(site, req.slug, req.presented)
    case Some(started) => (site, Ok(started))
    case None =>
      if req.displayName.None? || Strip(req.displayName.value) == "" then (site, Err(DisplayNameRequired))
      else
        match ResolveMembers(req.directory, members)
        case Err(e) => (site, Err(e))
        case Ok(ids) =>
          match FirstHuman(site.roles, ids)
          case Some(u) => (site, Err(HumanMember(u)))
          case None =>
            if !req.provisions then (site, Err(NoNickname))
            else (ProvisionGuest(site, req, ids), Ok(Started(site.nextRoom, Some(site.nextUser))))
  }

  function StartLoggedIn(site: Site, req: Request, members: seq<string>): (Site, Result<Started, StartError>) {
    if req.caller.None? then (site, Err(AuthRequired))
    else if !req.callerNamed then (site, Err(NicknameRequired))
    else
      match ResolveMembers(req.directory, members)
      case Err(e) => (site, Err(e))
      case Ok(ids) => (OpenRoom(site, req.caller.value, ids, req.slug), Ok(Started(site.nextRoom, None)))
  }

  function Start(site: Site, req: Request): (Site, Result<Started, StartError>) {
    if req.widget.None? then (site, Err(WidgetNotFound))
    else if req.widget.value.isPublic then StartPublic(site, req, req.widget.value.members)
    else StartLoggedIn(site, req, req.widget.value.members)
  }

  // ---- Wiping ----------------------------------------------------------------------------------------------

  predicate Involves(row: RoomRow, u: User) {
    IsIn(row.room, u) || row.room.creator == u
  }

  function RoomsWithout(rooms: seq<RoomRow>, ids: set<nat>): seq<RoomRow> {
    if rooms == [] then []
    else RoomsWithout(rooms[..|rooms| - 1], ids) + if rooms[|rooms| - 1].id in ids then [] else [rooms[|rooms| - 1]]
  }

  /** ON DELETE SET NULL */
  function Unlink(sessions: seq<Session>, ids: set<nat>): seq<Session> {
    seq(|sessions|, i requires 0 <= i < |sessions| =>
      if sessions[i].room.Some? && sessions[i].room.value in ids then sessions[i].(room := None) else sessions[i])
  }

  function DeleteRooms(site: Site, ids: set<nat>): Site {
    site.(rooms := RoomsWithout(site.rooms, ids), sessions := Unlink(site.sessions, ids))
  }

  function ConversationsWithout(conversations: seq<Conversation>, u: User): seq<Conversation> {
    if conversations == [] then []
    else
      var last := conversations[|conversations| - 1];
      ConversationsWithout(conversations[..|conversations| - 1], u) + if last.low == u || last.high == u then [] else [last]
  }

  function SessionsWithout(sessions: seq<Session>, u: User): seq<Session> {
    if sessions == [] then []
    else
      SessionsWithout(sessions[..|sessions| - 1], u) +
      if sessions[|sessions| - 1].guest == u then [] else [sessions[|sessions| - 1]]
  }

  function RoomIdsOf(rooms: seq<RoomRow>, u: User): set<nat> {
    set k | 0 <= k < |rooms| && Involves(rooms[k], u) :: rooms[k].id
  }

  /** The three `_delete_*_for` helpers, one after the other. */
  function WipeUser(site: Site, u: User): Site {
    var talked := site.(conversations := ConversationsWithout(site.conversations, u));
    var housed := DeleteRooms(talked, RoomIdsOf(talked.rooms, u));
    housed.(sessions := SessionsWithout(housed.sessions, u))
  }

  function WipeUsers(site: Site, users: seq<User>): Site {
    if users == [] then site else WipeUser(WipeUsers(site, users[..|users| - 1]), users[|users| - 1])
  }

  function SessionGuests(sessions: seq<Session>): seq<User> {
    seq(|sessions|, i requires 0 <= i < |sessions| => sessions[i].guest)
  }

  /** `all_guest_user_ids` */
  function AllGuests(site: Site): seq<User> {
    Dedupe(SessionGuests(site.sessions))
  }

  datatype Wiped = Wiped(conversations: int, rooms: int, sessions: int)

  function Removed(before: Site, after: Site): Wiped {
    Wiped(|before.conversations| - |after.conversations|, |before.rooms| - |after.rooms|, |before.sessions| - |after.sessions|)
  }

  /** `clear_all_guest_sessions` */
  function ClearAll(site: Site): Site {
    WipeUsers(site, AllGuests(site))
  }

  function Registered(site: Site): GuestTokens.Registry {
    GuestTokens.Registry(AllGuests(site), site.roles)
  }

  /** `_reset_token_balance`: the guest path first, and straight on the ledger for everybody else. */
  function ResetBalance(site: Site, u: User, target: int): Option<Books> {
    match GuestTokens.Reset(site.books, Registered(site), u, target)
    case Ok(books) => Some(books)
    case Err(GuestNotFound) => GuestTokens.SetBalance(site.books, u, target)
    case Err(BadAmount) => None
  }

  /** `clear_user_sessions`; a failing reset undoes the request. */
  function ClearUser(site: Site, u: User, target: int): (Site, Option<Wiped>) {
    var wiped := WipeUser(site, u);
    match ResetBalance(wiped, u, target)
    case None => (site, None)
    case Some(books) => (wiped.(books := books), Some(Removed(site, wiped)))
  }

  // ---- Runs ------------------------------------------------------------------------------------------------

  /** Starts and wipes, between whatever else happens to rooms, conversations and balances. */
  datatype Act =
    | DoStart(req: Request)
    | DoClearAll
    | DoClearUser(user: User, target: int)
    | DoDeleteRooms(ids: set<nat>)
    | DoRoom(index: nat, op: Rooms.Op)
    | DoTalk(conversation: Conversation)
    | DoMove(user: User, delta: int, origin: Origin)

  function Step(site: Site, a: Act): Site {
    match a
    case DoStart(req) => Start(site, req).0
    case DoClearAll => ClearAll(site)
    case DoClearUser(u, target) => if u < site.nextUser then ClearUser(site, u, target).0 else site
    case DoDeleteRooms(ids) => DeleteRooms(site, ids)
    case DoRoom(k, op) =>
      if k >= |site.rooms| then site
      else site.(rooms := site.rooms[k := site.rooms[k].(room := Rooms.Apply(site.rooms[k].room, op))])
    case DoTalk(conversation) => site.(conversations := site.conversations + [conversation])
    case DoMove(u, delta, origin) =>
      if u < site.nextUser && Balance(site.books, u) + delta >= 0 && !origin.InitialGrant?
      then site.(books := Move(site.books, u, delta, origin)) else site
  }

  function Run(first: User, roles: Roles, acts: seq<Act>): Site {
    if acts == [] then Empty(first, roles) else Step(Run(first, roles, acts[..|acts| - 1]), acts[|acts| - 1])
  }

  // ---- The invariant ---------------------------------------------------------------------------------------

  ghost predicate OneRowPerId(rooms: seq<RoomRow>) {
    forall i, j | 0 <= i < j < |rooms| :: rooms[i].id != rooms[j].id
  }

  ghost predicate DistinctRooms(site: Site) {
    && OneRowPerId(site.rooms)
    && (forall row | row in site.rooms :: row.id < site.nextRoom)
  }

  /** The linked room exists, belongs to the guest, and was opened for the same widget. */
  ghost predicate Linked(rooms: seq<RoomRow>, s: Session) {
    s.room.Some? ==> exists row | row in rooms ::
      row.id == s.room.value && row.room.creator == s.guest && row.slug == Some(s.slug)
  }

  ghost predicate SessionsOk(site: Site) {
    forall s | s in site.sessions ::
      s.guest < site.nextUser && IsGuest(site.roles, s.guest) && Linked(site.rooms, s)
  }

  /** The initial grants the ledger shows, in order. */
  function GrantEntries(entries: seq<Entry>): seq<Entry> {
    if entries == [] then []
    else
      var last := entries[|entries| - 1];
      GrantEntries(entries[..|entries| - 1]) + if last.origin.InitialGrant? then [last] else []
  }

  /** The grants that the fresh starts call for. */
  function DueGrants(history: seq<Provision>): seq<Entry> {
    if history == [] then []
    else
      var last := history[|history| - 1];
      DueGrants(history[..|history| - 1]) +
      if Granted(last.budget) > 0 then [Entry(last.guest, Granted(last.budget), InitialGrant)] else []
  }

  ghost predicate HistoryOk(site: Site) {
    && (forall i, j | 0 <= i < j < |site.history| :: site.history[i].guest < site.history[j].guest)
    && (forall i | 0 <= i < |site.history| :: site.history[i].guest < site.nextUser)
    && GrantEntries(site.books.entries) == DueGrants(site.history)
  }

  ghost predicate BooksOk(site: Site) {
    forall u: User :: Balance(site.books, u) >= 0 && (u >= site.nextUser ==> u !in site.books.balances)
  }

  ghost predicate SiteInv(site: Site) {
    DistinctRooms(site) && SessionsOk(site) && HistoryOk(site) && BooksOk(site)
  }

  lemma {:induction false} RoomsWithoutMembers(rooms: seq<RoomRow>, ids: set<nat>)
    ensures forall row :: row in RoomsWithout(rooms, ids) <==> row in rooms && row.id !in ids
  {
    if rooms != [] {
      RoomsWithoutMembers(rooms[..|rooms| - 1], ids);
      assert rooms == rooms[..|rooms| - 1] + [rooms[|rooms| - 1]];
    }
  }

  lemma {:induction false} RoomsWithoutIsExact(rooms: seq<RoomRow>, ids: set<nat>)
    requires OneRowPerId(rooms)
    ensures forall row :: row in RoomsWithout(rooms, ids) <==> row in rooms && row.id !in ids
    ensures OneRowPerId(RoomsWithout(rooms, ids))
  {
    RoomsWithoutMembers(rooms, ids);
    if rooms != [] {
      var init, last := rooms[..|rooms| - 1], rooms[|rooms| - 1];
      RoomsWithoutIsExact(init, ids);
      var left := RoomsWithout(init, ids);
      forall i | 0 <= i < |left|
        ensures left[i].id != last.id
      {
        assert left[i] in left;
      }
    }
  }

  lemma {:induction false} SessionsWithoutIsExact(sessions: seq<Session>, u: User)
    ensures forall s :: s in SessionsWithout(sessions, u) <==> s in sessions && s.guest != u
  {
    if sessions != [] {
      SessionsWithoutIsExact(sessions[..|sessions| - 1], u);
      assert sessions == sessions[..|sessions| - 1] + [sessions[|sessions| - 1]];
    }
  }

  lemma {:induction false} ConversationsWithoutIsExact(conversations: seq<Conversation>, u: User)
    ensures forall p :: p in ConversationsWithout(conversations, u) <==> p in conversations && p.low != u && p.high != u
  {
    if conversations != [] {
      ConversationsWithoutIsExact(conversations[..|conversations| - 1], u);
      assert conversations == conversations[..|conversations| - 1] + [conversations[|conversations| - 1]];
    }
  }

  /** Deleting rooms takes their links with them: no session ever points to a room that is gone. */
  lemma DeleteRoomsKeepsInv(site: Site, ids: set<nat>)
    requires DistinctRooms(site) && SessionsOk(site)
    ensures DistinctRooms(DeleteRooms(site, ids)) && SessionsOk(DeleteRooms(site, ids))
  {
    var after := DeleteRooms(site, ids);
    RoomsWithoutIsExact(site.rooms, ids);
    forall s | s in after.sessions
      ensures s.guest < site.nextUser && IsGuest(site.roles, s.guest) && Linked(after.rooms, s)
    {
      var i :| 0 <= i < |after.sessions| && after.sessions[i] == s;
      assert site.sessions[i] in site.sessions;
      if s.room.Some? {
        assert s == site.sessions[i] && s.room.value !in ids;
        var row :| row in site.rooms && row.id == s.room.value && row.room.creator == s.guest && row.slug == Some(s.slug);
        assert row in after.rooms;
      }
    }
  }

  lemma WipeUserKeepsInv(site: Site, u: User)
    requires DistinctRooms(site) && SessionsOk(site)
    ensures DistinctRooms(WipeUser(site, u)) && SessionsOk(WipeUser(site, u))
    ensures var after := WipeUser(site, u);
            after == site.(conversations := after.conversations, rooms := after.rooms, sessions := after.sessions)
  {
    var talked := site.(conversations := ConversationsWithout(site.conversations, u));
    DeleteRoomsKeepsInv(talked, RoomIdsOf(talked.rooms, u));
    SessionsWithoutIsExact(DeleteRooms(talked, RoomIdsOf(talked.rooms, u)).sessions, u);
  }

  lemma {:induction false} WipeUsersKeepsInv(site: Site, users: seq<User>)
    requires DistinctRooms(site) && SessionsOk(site)
    ensures DistinctRooms(WipeUsers(site, users)) && SessionsOk(WipeUsers(site, users))
    ensures var after := WipeUsers(site, users);
            after == site.(conversations := after.conversations, rooms := after.rooms, sessions := after.sessions)
  {
    if users != [] {
      WipeUsersKeepsInv(site, users[..|users| - 1]);
      WipeUserKeepsInv(WipeUsers(site, users[..|users| - 1]), users[|users| - 1]);
    }
  }

  lemma MoveKeepsBooks(site: Site, u: User, delta: int, origin: Origin)
    requires HistoryOk(site) && BooksOk(site) && u < site.nextUser
    requires Balance(site.books, u) + delta >= 0 && !origin.InitialGrant?
    ensures HistoryOk(site.(books := Move(site.books, u, delta, origin)))
    ensures BooksOk(site.(books := Move(site.books, u, delta, origin)))
  {
  }

  /** The reset works on the plain ledger path: it ends at any non-negative target, and fails for a negative one. */
  lemma ResetBalanceIsExact(site: Site, u: User, target: int)
    requires Balance(site.books, u) >= 0
    ensures ResetBalance(site, u, target).Some? <==> target >= 0
    ensures target >= 0 ==> ResetBalance(site, u, target) == GuestTokens.SetBalance(site.books, u, target)
    ensures target >= 0 ==>
              var delta := target - Balance(site.books, u);
              ResetBalance(site, u, target).value == if delta == 0 then site.books else Move(site.books, u, delta, Adjustment)
  {
    GuestTokens.SetBalanceIsExact(site.books, u, target);
  }

  lemma OpenRoomKeepsInv(site: Site, creator: User, ids: seq<User>, slug: string)
    requires DistinctRooms(site) && SessionsOk(site)
    ensures DistinctRooms(OpenRoom(site, creator, ids, slug)) && SessionsOk(OpenRoom(site, creator, ids, slug))
  {
    var after := OpenRoom(site, creator, ids, slug);
    forall i | 0 <= i < |site.rooms|
      ensures site.rooms[i].id < site.nextRoom
    {
      assert site.rooms[i] in site.rooms;
    }
    forall s | s in after.sessions
      ensures Linked(after.rooms, s)
    {
      if s.room.Some? {
        var row :| row in site.rooms && row.id == s.room.value && row.room.creator == s.guest && row.slug == Some(s.slug);
        assert row in after.rooms;
      }
    }
  }

  lemma ProvisionKeepsSessions(site: Site, req: Request, ids: seq<User>)
    requires DistinctRooms(site) && SessionsOk(site)
    ensures DistinctRooms(ProvisionGuest(site, req, ids)) && SessionsOk(ProvisionGuest(site, req, ids))
  {
    var guest := site.nextUser;
    var provisioned := site.(nextUser := guest + 1, roles := site.roles[guest := Guest]);
    OpenRoomKeepsInv(provisioned, guest, ids, req.slug);
    CreateRoomIsExact(guest, ids);
    var after := ProvisionGuest(site, req, ids);
    var row := after.rooms[|after.rooms| - 1];
    assert row in after.rooms && row.id == site.nextRoom && row.room.creator == guest && row.slug == Some(req.slug);
  }

  lemma ProvisionKeepsInv(site: Site, req: Request, ids: seq<User>)
    requires SiteInv(site)
    ensures SiteInv(ProvisionGuest(site, req, ids))
  {
    ProvisionKeepsSessions(site, req, ids);
  }

  /** A start changes nothing, provisions a guest or opens a room. */
  lemma StartOutcome(site: Site, req: Request)
    ensures Start(site, req).0 != site ==> req.widget.Some? && ResolveMembers(req.directory, req.widget.value.members).Ok?
    ensures Start(site, req).0 != site ==>
              var ids := ResolveMembers(req.directory, req.widget.value.members).value;
              if req.widget.value.isPublic then Start(site, req).0 == ProvisionGuest(site, req, ids)
              else req.caller.Some? && Start(site, req).0 == OpenRoom(site, req.caller.value, ids, req.slug)
  {
  }

  lemma StartKeepsInv(site: Site, req: Request)
    requires SiteInv(site)
    ensures SiteInv(Start(site, req).0)
  {
    StartOutcome(site, req);
    if Start(site, req).0 != site {
      var ids := ResolveMembers(req.directory, req.widget.value.members).value;
      if req.widget.value.isPublic {
        ProvisionKeepsInv(site, req, ids);
      } else {
        OpenRoomKeepsInv(site, req.caller.value, ids, req.slug);
      }
    }
  }

  lemma ClearUserKeepsInv(site: Site, u: User, target: int)
    requires SiteInv(site) && u < site.nextUser
    ensures SiteInv(ClearUser(site, u, target).0)
  {
    var wiped := WipeUser(site, u);
    WipeUserKeepsInv(site, u);
    ResetBalanceIsExact(wiped, u, target);
    var delta := target - Balance(site.books, u);
    if target >= 0 && delta != 0 {
      MoveKeepsBooks(wiped, u, delta, Adjustment);
    }
  }

  lemma RoomActKeepsInv(site: Site, k: nat, op: Rooms.Op)
    requires DistinctRooms(site) && SessionsOk(site) && k < |site.rooms|
    ensures DistinctRooms(Step(site, DoRoom(k, op))) && SessionsOk(Step(site, DoRoom(k, op)))
  {
    var after := Step(site, DoRoom(k, op));
    assert site.rooms[k] in site.rooms;
    forall s | s in after.sessions
      ensures Linked(after.rooms, s)
    {
      if s.room.Some? {
        var row :| row in site.rooms && row.id == s.room.value && row.room.creator == s.guest && row.slug == Some(s.slug);
        var i :| 0 <= i < |site.rooms| && site.rooms[i] == row;
        assert after.rooms[i] in after.rooms;
      }
    }
  }

  lemma StepKeepsInv(site: Site, a: Act)
    requires SiteInv(site)
    ensures SiteInv(Step(site, a))
  {
    match a
    case DoStart(req) => StartKeepsInv(site, req);
    case DoClearAll => WipeUsersKeepsInv(site, AllGuests(site));
    case DoClearUser(u, target) => if u < site.nextUser { ClearUserKeepsInv(site, u, target); }
    case DoDeleteRooms(ids) => DeleteRoomsKeepsInv(site, ids);
    case DoRoom(k, op) => if k < |site.rooms| { RoomActKeepsInv(site, k, op); }
    case DoTalk(_) =>
    case DoMove(u, delta, origin) => if Step(site, a) != site { MoveKeepsBooks(site, u, delta, origin); }
  }

  lemma {:induction false} SiteAlwaysSound(first: User, roles: Roles, acts: seq<Act>)
    ensures SiteInv(Run(first, roles, acts))
  {
    if acts != [] {
      SiteAlwaysSound(first, roles, acts[..|acts| - 1]);
      StepKeepsInv(Run(first, roles, acts[..|acts| - 1]), acts[|acts| - 1]);
    }
  }

  // ---- One session per guest -------------------------------------------------------------------------------

  ghost predicate OneSessionEach(sessions: seq<Session>) {
    forall i, j | 0 <= i < j < |sessions| :: sessions[i].guest != sessions[j].guest
  }

  lemma {:induction false} FewerSessionsStayDistinct(sessions: seq<Session>, u: User)
    requires OneSessionEach(sessions)
    ensures OneSessionEach(SessionsWithout(sessions, u))
  {
    SessionsWithoutIsExact(sessions, u);
    if sessions != [] {
      var init, last := sessions[..|sessions| - 1], sessions[|sessions| - 1];
      FewerSessionsStayDistinct(init, u);
      SessionsWithoutIsExact(init, u);
      var left := SessionsWithout(init, u);
      forall i | 0 <= i < |left|
        ensures left[i].guest != last.guest
      {
        assert left[i] in left && left[i] in init;
      }
    }
  }

  lemma {:induction false} WipesStayDistinct(site: Site, users: seq<User>)
    requires OneSessionEach(site.sessions)
    ensures OneSessionEach(WipeUsers(site, users).sessions)
  {
    if users != [] {
      WipesStayDistinct(site, users[..|users| - 1]);
      WipeStaysDistinct(WipeUsers(site, users[..|users| - 1]), users[|users| - 1]);
    }
  }

  lemma WipeStaysDistinct(site: Site, u: User)
    requires OneSessionEach(site.sessions)
    ensures OneSessionEach(WipeUser(site, u).sessions)
  {
    FewerSessionsStayDistinct(Unlink(site.sessions, RoomIdsOf(site.rooms, u)), u);
  }

  lemma StepKeepsOneSession(site: Site, a: Act)
    requires SiteInv(site) && OneSessionEach(site.sessions)
    ensures OneSessionEach(Step(site, a).sessions)
  {
    match a
    case DoStart(req) => assert forall i | 0 <= i < |site.sessions| :: site.sessions[i] in site.sessions;
    case DoClearAll => WipesStayDistinct(site, AllGuests(site));
    case DoClearUser(u, target) => WipeStaysDistinct(site, u);
    case _ =>
  }

  lemma {:induction false} OneSessionAlways(first: User, roles: Roles, acts: seq<Act>)
    ensures OneSessionEach(Run(first, roles, acts).sessions)
  {
    if acts != [] {
      OneSessionAlways(first, roles, acts[..|acts| - 1]);
      SiteAlwaysSound(first, roles, acts[..|acts| - 1]);
      StepKeepsOneSession(Run(first, roles, acts[..|acts| - 1]), acts[|acts| - 1]);
    }
  }

  lemma SessionIsReused(site: Site, s: Session)
    requires SessionsOk(site) && OneSessionEach(site.sessions) && s in site.sessions && s.room.Some?
    ensures Reuse(site, s.slug, Some(s.guest)) == Some(Started(s.room.value, Some(s.guest)))
    ensures exists row :: row in site.rooms && row.id == s.room.value
  {
    assert Linked(site.rooms, s);
  }

  /** Whatever the tables hold, only a guest comes back, and only to a session of that guest and widget. */
  lemma ReusedIsSession(site: Site, slug: string, presented: User, room: nat)
    requires Reuse(site, slug, Some(presented)) == Some(Started(room, Some(presented)))
    ensures Session(presented, slug, Some(room)) in site.sessions && IsGuest(site.roles, presented)
  {
    var found := FindForWidget(site.sessions, presented, slug).value;
    assert found == Session(presented, slug, Some(room));
  }

  /** After any run, a presented credential is honoured exactly when it is a guest's who owns a session of this widget
      whose room still exists; and it leads to that very room. */
  lemma ReuseIsExact(first: User, roles: Roles, acts: seq<Act>, slug: string, presented: User, room: nat)
    ensures var site := Run(first, roles, acts);
            Reuse(site, slug, Some(presented)) == Some(Started(room, Some(presented))) <==>
              Session(presented, slug, Some(room)) in site.sessions &&
              exists row :: row in site.rooms && row.id == room
  {
    var site := Run(first, roles, acts);
    SiteAlwaysSound(first, roles, acts);
    OneSessionAlways(first, roles, acts);
    if Session(presented, slug, Some(room)) in site.sessions {
      SessionIsReused(site, Session(presented, slug, Some(room)));
    } else if Reuse(site, slug, Some(presented)) == Some(Started(room, Some(presented))) {
      ReusedIsSession(site, slug, presented, room);
    }
  }

  // ---- Grants over whole runs ------------------------------------------------------------------------------

  lemma {:induction false} DueGrantsAreDistinct(history: seq<Provision>, i: nat, j: nat)
    requires forall a, b | 0 <= a < b < |history| :: history[a].guest < history[b].guest
    requires i < j < |DueGrants(history)|
    ensures DueGrants(history)[i].user < DueGrants(history)[j].user <= history[|history| - 1].guest
  {
    var n := |history| - 1;
    var init := history[..n];
    DueGrantsAreOf(init);
    if j < |DueGrants(init)| {
      DueGrantsAreDistinct(init, i, j);
    } else {
      assert DueGrants(init)[i] in DueGrants(init);
      var p :| p in init && DueGrants(init)[i].user == p.guest;
      var k :| 0 <= k < n && history[k] == p;
      assert history[k].guest < history[n].guest;
    }
  }

  lemma {:induction false} DueGrantsAreOf(history: seq<Provision>)
    ensures forall e | e in DueGrants(history) ::
              exists p :: p in history && e == Entry(p.guest, Granted(p.budget), InitialGrant) && Granted(p.budget) > 0
  {
    if history != [] {
      DueGrantsAreOf(history[..|history| - 1]);
      assert history == history[..|history| - 1] + [history[|history| - 1]];
    }
  }

  /** Over any run: the initial grants in the ledger are exactly those the fresh economy-on starts call for, in
      order, and no guest ever gets a second one. */
  lemma {:induction false} GrantsMatchStarts(first: User, roles: Roles, acts: seq<Act>)
    ensures var site := Run(first, roles, acts);
            && GrantEntries(site.books.entries) == DueGrants(site.history)
            && forall i, j | 0 <= i < j < |GrantEntries(site.books.entries)| ::
                 GrantEntries(site.books.entries)[i].user != GrantEntries(site.books.entries)[j].user
  {
    var site := Run(first, roles, acts);
    SiteAlwaysSound(first, roles, acts);
    forall i, j | 0 <= i < j < |DueGrants(site.history)|
      ensures DueGrants(site.history)[i].user != DueGrants(site.history)[j].user
    {
      DueGrantsAreDistinct(site.history, i, j);
    }
  }

  function GrantTotal(entries: seq<Entry>): int {
    if entries == [] then 0
    else
      GrantTotal(entries[..|entries| - 1]) +
      if entries[|entries| - 1].origin.InitialGrant? then entries[|entries| - 1].delta else 0
  }

  /** How many fresh starts found the economy switched on. */
  function EconomyStarts(history: seq<Provision>): nat {
    if history == [] then 0
    else EconomyStarts(history[..|history| - 1]) + if history[|history| - 1].budget.enabled then 1 else 0
  }

  lemma GrantTotalSnoc(entries: seq<Entry>, e: Entry)
    ensures GrantTotal(entries + [e]) == GrantTotal(entries) + if e.origin.InitialGrant? then e.delta else 0
  {
    assert (entries + [e])[..|entries + [e]| - 1] == entries;
  }

  lemma {:induction false} TotalOfGrantEntries(entries: seq<Entry>)
    ensures GrantTotal(GrantEntries(entries)) == GrantTotal(entries)
  {
    if entries != [] {
      var init, last := entries[..|entries| - 1], entries[|entries| - 1];
      TotalOfGrantEntries(init);
      if last.origin.InitialGrant? {
        GrantTotalSnoc(GrantEntries(init), last);
      } else {
        assert GrantEntries(init) + [] == GrantEntries(init);
      }
    }
  }

  lemma {:induction false} TotalOfDueGrants(history: seq<Provision>, amount: nat)
    requires forall p | p in history :: p.budget.initial == amount
    ensures GrantTotal(DueGrants(history)) == amount * EconomyStarts(history)
  {
    if history != [] {
      var init, last := history[..|history| - 1], history[|history| - 1];
      assert last in history && forall p | p in init :: p in history;
      TotalOfDueGrants(init, amount);
      var due := DueGrants(init);
      if Granted(last.budget) > 0 {
        GrantTotalSnoc(due, Entry(last.guest, Granted(last.budget), InitialGrant));
        assert amount * (EconomyStarts(init) + 1) == amount * EconomyStarts(init) + amount;
      } else {
        assert due + [] == due;
      }
    }
  }

  lemma {:induction false} SameBudgetThroughout(first: User, roles: Roles, acts: seq<Act>, amount: nat)
    requires forall a | a in acts :: a.DoStart? ==> a.req.budget.initial == amount
    ensures forall p | p in Run(first, roles, acts).history :: p.budget.initial == amount
  {
    if acts != [] {
      var init, last := acts[..|acts| - 1], acts[|acts| - 1];
      assert last in acts && forall a | a in init :: a in acts;
      SameBudgetThroughout(first, roles, init, amount);
      SiteAlwaysSound(first, roles, init);
      HistoryOnlyGrowsByStarts(Run(first, roles, init), last);
    }
  }

  lemma HistoryOnlyGrowsByStarts(site: Site, a: Act)
    requires DistinctRooms(site) && SessionsOk(site)
    ensures Step(site, a).history == site.history ||
            (a.DoStart? && Step(site, a).history == site.history + [Provision(site.nextUser, a.req.budget)])
  {
    match a
    case DoClearAll => WipeUsersKeepsInv(site, AllGuests(site));
    case DoClearUser(u, target) => WipeUserKeepsInv(site, u);
    case _ =>
  }

  /** With a fixed configured amount, everything ever granted is that amount times the fresh economy-on starts. */
  lemma {:induction false} TotalGranted(first: User, roles: Roles, acts: seq<Act>, amount: nat)
    requires forall a | a in acts :: a.DoStart? ==> a.req.budget.initial == amount
    ensures var site := Run(first, roles, acts); GrantTotal(site.books.entries) == amount * EconomyStarts(site.history)
  {
    var site := Run(first, roles, acts);
    SameBudgetThroughout(first, roles, acts, amount);
    GrantsMatchStarts(first, roles, acts);
    TotalOfGrantEntries(site.books.entries);
    TotalOfDueGrants(site.history, amount);
  }

  // ---- One start -------------------------------------------------------------------------------------------

  lemma {:induction false} ResolveIsExact(directory: map<string, User>, nicknames: seq<string>)
    ensures ResolveMembers(directory, nicknames).Ok? <==> forall n | n in nicknames :: n in directory
    ensures ResolveMembers(directory, nicknames).Err? ==> ResolveMembers(directory, nicknames).error.UnknownMember?
    ensures ResolveMembers(directory, nicknames).Ok? ==>
              |ResolveMembers(directory, nicknames).value| == |nicknames| &&
              forall i | 0 <= i < |nicknames| ::
                nicknames[i] in directory && ResolveMembers(directory, nicknames).value[i] == directory[nicknames[i]]
  {
    if nicknames != [] {
      ResolveIsExact(directory, nicknames[..|nicknames| - 1]);
      assert nicknames == nicknames[..|nicknames| - 1] + [nicknames[|nicknames| - 1]];
    }
  }

  /** Nickname k is unknown and none before is. */
  ghost predicate FirstUnknownAt(directory: map<string, User>, nicknames: seq<string>, k: nat) {
    k < |nicknames| && nicknames[k] !in directory && forall j | 0 <= j < k :: nicknames[j] in directory
  }

  lemma {:induction false} FirstUnknownDecides(directory: map<string, User>, nicknames: seq<string>, k: nat)
    requires FirstUnknownAt(directory, nicknames, k)
    ensures ResolveMembers(directory, nicknames) == Err(UnknownMember(nicknames[k]))
  {
    var init := nicknames[..|nicknames| - 1];
    if k < |init| {
      FirstUnknownDecides(directory, init, k);
    } else {
      ResolveIsExact(directory, init);
      assert forall n | n in init :: n in directory;
    }
  }

  lemma ResolvedAre(directory: map<string, User>, nicknames: seq<string>)
    requires ResolveMembers(directory, nicknames).Ok?
    ensures forall n | n in nicknames :: n in directory
    ensures forall u :: u in ResolveMembers(directory, nicknames).value <==>
                        exists n :: n in nicknames && directory[n] == u
  {
    ResolveIsExact(directory, nicknames);
    var ids := ResolveMembers(directory, nicknames).value;
    forall u
      ensures u in ids <==> exists n :: n in nicknames && directory[n] == u
    {
      if u in ids {
        var i :| 0 <= i < |ids| && ids[i] == u;
        assert nicknames[i] in nicknames;
      }
      if n :| n in nicknames && directory[n] == u {
        var i :| 0 <= i < |nicknames| && nicknames[i] == n;
        assert ids[i] == u;
      }
    }
  }

  lemma MembersAreBots(site: Site, directory: map<string, User>, members: seq<string>)
    requires ResolveMembers(directory, members).Ok?
    ensures forall n | n in members :: n in directory
    ensures var human := FirstHuman(site.roles, ResolveMembers(directory, members).value);
            && (human.None? <==> forall n | n in members :: IsBot(site.roles, directory[n]))
            && (human.Some? ==> !IsBot(site.roles, human.value) && exists n :: n in members && directory[n] == human.value)
  {
    ResolvedAre(directory, members);
  }

  /** Which error a public start ends with: a name missing, a member unknown, a member human, or no nickname to be had,
      the first of these that applies. */
  lemma PublicErrorsAreExact(site: Site, req: Request, k: nat)
    requires req.widget.Some? && req.widget.value.isPublic && Reuse(site, req.slug, req.presented).None?
    ensures var r, members := Start(site, req).1, req.widget.value.members;
            var named := req.displayName.Some? && !AllSpace(req.displayName.value);
            var known := forall n | n in members :: n in req.directory;
            && (r == Err(DisplayNameRequired) <==> !named)
            && (named && FirstUnknownAt(req.directory, members, k) ==> r == Err(UnknownMember(members[k])))
            && (r.Err? && r.error.UnknownMember? ==> named && !known)
            && (r.Err? && r.error.HumanMember? <==>
                  named && known && exists n :: n in members && !IsBot(site.roles, req.directory[n]))
            && (r.Err? && r.error.HumanMember? ==>
                  !IsBot(site.roles, r.error.user) && exists n :: n in members && req.directory[n] == r.error.user)
            && (r == Err(NoNickname) <==>
                  named && known && !req.provisions && forall n | n in members :: IsBot(site.roles, req.directory[n]))
  {
    var members := req.widget.value.members;
    if req.displayName.Some? {
      StrippedBodyHasWords(req.displayName.value);
    }
    if FirstUnknownAt(req.directory, members, k) {
      FirstUnknownDecides(req.directory, members, k);
    }
    ResolveIsExact(req.directory, members);
    if ResolveMembers(req.directory, members).Ok? {
      MembersAreBots(site, req.directory, members);
    }
  }

  /** A public start succeeds exactly when the visitor comes back to a session of this widget whose room still
      exists, or gives a name to a widget all of whose members are known bots (and a nickname can be found). A start
      that fails changes nothing. */
  lemma PublicStartSucceeds(site: Site, req: Request)
    requires req.widget.Some? && req.widget.value.isPublic
    ensures Start(site, req).1.Ok? <==>
              || Reuse(site, req.slug, req.presented).Some?
              || (req.displayName.Some? && Strip(req.displayName.value) != "" && req.provisions &&
                  forall n | n in req.widget.value.members :: n in req.directory && IsBot(site.roles, req.directory[n]))
    ensures Start(site, req).1.Err? ==> Start(site, req).0 == site
  {
    var members := req.widget.value.members;
    ResolveIsExact(req.directory, members);
    if ResolveMembers(req.directory, members).Ok? {
      MembersAreBots(site, req.directory, members);
    }
  }

  /** A logged-in start succeeds exactly for a caller with a nickname and known members; it opens one room that the
      caller administers and that holds exactly the caller and the members, and touches nothing else. */
  lemma LoggedInStartIsExact(site: Site, req: Request)
    requires req.widget.Some? && !req.widget.value.isPublic
    ensures var (after, r) := Start(site, req);
            && (r.Ok? <==> req.caller.Some? && req.callerNamed &&
                           forall n | n in req.widget.value.members :: n in req.directory)
            && (r.Err? ==> after == site)
            && (r == Err(AuthRequired) <==> req.caller.None?)
            && (r == Err(NicknameRequired) <==> req.caller.Some? && !req.callerNamed)
            && (forall k: nat | FirstUnknownAt(req.directory, req.widget.value.members, k) ::
                  req.caller.Some? && req.callerNamed ==> r == Err(UnknownMember(req.widget.value.members[k])))
            && (r.Ok? ==>
                  && |after.rooms| == |site.rooms| + 1 && after.rooms[..|site.rooms|] == site.rooms
                  && after == site.(rooms := after.rooms, nextRoom := site.nextRoom + 1)
                  && var row := after.rooms[|site.rooms|];
                     && row.id == site.nextRoom == r.value.room && r.value.guest == None
                     && row.slug == Some(req.slug) && row.room.creator == req.caller.value
                     && (forall u :: IsAdmin(row.room, u) <==> u == req.caller.value)
                     && (forall u :: IsIn(row.room, u) <==>
                                     || u == req.caller.value
                                     || exists n :: n in req.widget.value.members && req.directory[n] == u))
  {
    var members := req.widget.value.members;
    ResolveIsExact(req.directory, members);
    var ids := ResolveMembers(req.directory, members);
    forall k: nat | FirstUnknownAt(req.directory, members, k)
      ensures ids == Err(UnknownMember(members[k]))
    {
      FirstUnknownDecides(req.directory, members, k);
    }
    if ids.Ok? && req.caller.Some? {
      CreateRoomIsExact(req.caller.value, ids.value);
      ResolvedAre(req.directory, members);
    }
  }

  /** Coming back changes no row and no balance, and leads to a room that still exists, that the same guest created,
      and that was opened for the same widget. */
  lemma ReuseIsSafe(site: Site, req: Request)
    requires SiteInv(site) && req.widget.Some? && req.widget.value.isPublic
    requires Reuse(site, req.slug, req.presented).Some?
    ensures var (after, r) := Start(site, req);
            && after == site && r.Ok? && r.value.guest == req.presented && r.value.guest.Some?
            && exists row | row in after.rooms ::
                 row.id == r.value.room && row.room.creator == req.presented.value && row.slug == Some(req.slug)
  {
    var session := FindForWidget(site.sessions, req.presented.value, req.slug).value;
    assert Linked(site.rooms, session);
  }

  function Users(room: Room): seq<User> {
    seq(|room.members|, i requires 0 <= i < |room.members| => room.members[i].user)
  }

  lemma {:induction false} AddAllKeepsFirst(r: Room, users: seq<User>)
    requires r.members != []
    ensures AddAll(r, users).members != [] && AddAll(r, users).members[0] == r.members[0]
  {
    if users != [] {
      AddAllKeepsFirst(r, users[..|users| - 1]);
    }
  }

  lemma NewRoomIsPaidByGuest(site: Site, req: Request, ids: seq<User>)
    requires forall u | u in ids :: IsBot(site.roles, u)
    ensures var after := ProvisionGuest(site, req, ids);
            var row := after.rooms[|after.rooms| - 1];
            && PayingGuest(after.roles, Users(row.room)) == Some(site.nextUser)
            && forall u :: IsIn(row.room, u) ==> u == site.nextUser || IsBot(after.roles, u)
  {
    var guest := site.nextUser;
    var after := ProvisionGuest(site, req, ids);
    CreateRoomIsExact(guest, ids);
    AddAllKeepsFirst(Add(Room(guest, [], []), guest, Admin), Except(Dedupe(ids), guest));
    assert Users(after.rooms[|after.rooms| - 1].room)[0] == guest;
  }

  lemma FreshGuestMayReturn(site: Site, req: Request, ids: seq<User>)
    requires SessionsOk(site)
    ensures Reuse(ProvisionGuest(site, req, ids), req.slug, Some(site.nextUser)) ==
            Some(Started(site.nextRoom, Some(site.nextUser)))
  {
  }

  /** A fresh start gives a new guest exactly the configured budget and nobody else anything; the guest is the one
      who pays for the new room, whose other members are all bots; and presenting that guest at once leads straight
      back to the same room without another grant. */
  lemma FreshStartIsExact(site: Site, req: Request)
    requires SiteInv(site) && req.widget.Some? && req.widget.value.isPublic
    requires Start(site, req).1.Ok? && Reuse(site, req.slug, req.presented).None?
    ensures var (after, r) := Start(site, req);
            var row := after.rooms[|after.rooms| - 1];
            && r == Ok(Started(row.id, Some(site.nextUser))) && after.rooms[..|after.rooms| - 1] == site.rooms
            && (forall u :: Balance(after.books, u) ==
                            if u == site.nextUser then Granted(req.budget) else Balance(site.books, u))
            && PayingGuest(after.roles, Users(row.room)) == r.value.guest
            && (forall u :: IsIn(row.room, u) ==> u == site.nextUser || IsBot(after.roles, u))
            && Start(after, req.(presented := r.value.guest)) == (after, r)
  {
    var ids := ResolveMembers(req.directory, req.widget.value.members).value;
    assert Start(site, req).0 == ProvisionGuest(site, req, ids);
    NewRoomIsPaidByGuest(site, req, ids);
    FreshGuestMayReturn(site, req, ids);
  }

  /** What else a fresh start leaves behind: one new user, who is a guest; one room of this widget, which the guest
      administers and which holds exactly the guest and the configured members; one session of the guest on that room;
      and every other row as it was. */
  lemma FreshStartRows(site: Site, req: Request)
    requires req.widget.Some? && req.widget.value.isPublic
    requires Start(site, req).1.Ok? && Reuse(site, req.slug, req.presented).None?
    ensures var (after, r) := Start(site, req);
            var guest, members := site.nextUser, req.widget.value.members;
            && |after.rooms| == |site.rooms| + 1 && after.rooms[..|site.rooms|] == site.rooms
            && var row := after.rooms[|site.rooms|];
               && row.id == site.nextRoom && row.slug == Some(req.slug) && row.room.creator == guest
               && (forall n | n in members :: n in req.directory)
               && (forall u :: IsIn(row.room, u) <==> u == guest || exists n :: n in members && req.directory[n] == u)
               && (forall u :: IsAdmin(row.room, u) <==> u == guest)
               && after.sessions == site.sessions + [Session(guest, req.slug, Some(row.id))]
               && after.roles == site.roles[guest := Guest] && after.conversations == site.conversations
               && after.nextUser == guest + 1 && after.nextRoom == site.nextRoom + 1
               && after.history == site.history + [Provision(guest, req.budget)]
  {
    var members := req.widget.value.members;
    ResolvedAre(req.directory, members);
    CreateRoomIsExact(site.nextUser, ResolveMembers(req.directory, members).value);
    assert Start(site, req).0 == ProvisionGuest(site, req, ResolveMembers(req.directory, members).value);
  }

  // ---- Wiping ----------------------------------------------------------------------------------------------

  /** Whether the session stood on one of the user's rooms. */
  ghost predicate StoodOn(rooms: seq<RoomRow>, s: Session, u: User) {
    s.room.Some? && exists row | row in rooms :: row.id == s.room.value && Involves(row, u)
  }

  lemma RoomIdsAreExact(rooms: seq<RoomRow>, u: User, row: RoomRow)
    requires OneRowPerId(rooms) && row in rooms
    ensures row.id in RoomIdsOf(rooms, u) <==> Involves(row, u)
  {
    var i :| 0 <= i < |rooms| && rooms[i] == row;
    if row.id in RoomIdsOf(rooms, u) {
      var k :| 0 <= k < |rooms| && Involves(rooms[k], u) && rooms[k].id == row.id;
    }
  }

  /** What is left of somebody else's session: the session, without its link if its room goes. */
  ghost function Unlinked(rooms: seq<RoomRow>, s: Session, u: User): Session {
    if StoodOn(rooms, s, u) then s.(room := None) else s
  }

  /** The sessions left are exactly everybody else's, each with its link unless its room went. */
  lemma SessionsLeftAreExact(rooms: seq<RoomRow>, sessions: seq<Session>, u: User)
    ensures forall t :: t in SessionsWithout(Unlink(sessions, RoomIdsOf(rooms, u)), u) <==>
                        exists s :: s in sessions && s.guest != u && t == Unlinked(rooms, s, u)
  {
    var unlinked := Unlink(sessions, RoomIdsOf(rooms, u));
    SessionsWithoutIsExact(unlinked, u);
    forall i | 0 <= i < |sessions|
      ensures unlinked[i] == Unlinked(rooms, sessions[i], u)
    {
      assert forall k | 0 <= k < |rooms| :: rooms[k] in rooms;
    }
    forall s | s in sessions
      ensures Unlinked(rooms, s, u) in unlinked
    {
      var i :| 0 <= i < |sessions| && sessions[i] == s;
      assert unlinked[i] == Unlinked(rooms, s, u);
    }
    forall t | t in unlinked
      ensures exists s :: s in sessions && t == Unlinked(rooms, s, u)
    {
      var i :| 0 <= i < |unlinked| && unlinked[i] == t;
      assert sessions[i] in sessions;
    }
  }

  lemma RoomsLeftAreExact(rooms: seq<RoomRow>, u: User)
    requires OneRowPerId(rooms)
    ensures forall row :: row in RoomsWithout(rooms, RoomIdsOf(rooms, u)) <==> row in rooms && !Involves(row, u)
  {
    RoomsWithoutIsExact(rooms, RoomIdsOf(rooms, u));
    forall row | row in rooms
      ensures row.id in RoomIdsOf(rooms, u) <==> Involves(row, u)
    {
      RoomIdsAreExact(rooms, u, row);
    }
  }

  /** Between the two sites exactly the user's conversations, the rooms the user is in or created, and the user's
      sessions have gone; nobody else's row has, and a session left behind lost its link only with its room. */
  ghost predicate OnlyWiped(site: Site, after: Site, u: User) {
    && (forall c :: c in after.conversations <==> c in site.conversations && c.low != u && c.high != u)
    && (forall row :: row in after.rooms <==> row in site.rooms && !IsIn(row.room, u) && row.room.creator != u)
    && (forall t :: t in after.sessions <==>
                    exists s :: s in site.sessions && s.guest != u && t == Unlinked(site.rooms, s, u))
  }

  lemma WipeUserIsExact(site: Site, u: User)
    requires DistinctRooms(site)
    ensures OnlyWiped(site, WipeUser(site, u), u)
  {
    ConversationsWithoutIsExact(site.conversations, u);
    RoomsLeftAreExact(site.rooms, u);
    SessionsLeftAreExact(site.rooms, site.sessions, u);
  }

  ghost predicate NothingOf(site: Site, u: User) {
    && (forall p | p in site.conversations :: p.low != u && p.high != u)
    && (forall row | row in site.rooms :: !IsIn(row.room, u) && row.room.creator != u)
    && (forall s | s in site.sessions :: s.guest != u)
  }

  /** Every session left was there before, possibly with its link. */
  ghost predicate SessionsCameFrom(before: seq<Session>, after: seq<Session>) {
    forall s | s in after :: exists was :: was in before && s.guest == was.guest
  }

  /** Nothing of the users is left, and every conversation and room that involves none of them is. */
  ghost predicate RowsWiped(site: Site, after: Site, users: seq<User>) {
    && (forall u | u in users :: NothingOf(after, u))
    && (forall c :: c in after.conversations <==> c in site.conversations && c.low !in users && c.high !in users)
    && (forall row :: row in after.rooms <==> row in site.rooms && forall u | u in users :: !Involves(row, u))
  }

  lemma WipingKeepsNothing(mid: Site, after: Site, u: User, v: User)
    requires OnlyWiped(mid, after, u) && SessionsCameFrom(mid.sessions, after.sessions)
    requires NothingOf(mid, v) || (v == u && forall t | t in after.sessions :: t.guest != u)
    ensures NothingOf(after, v)
  {
  }

  lemma OneMoreWiped(site: Site, mid: Site, after: Site, users: seq<User>, u: User)
    requires RowsWiped(site, mid, users) && SessionsCameFrom(site.sessions, mid.sessions) && OnlyWiped(mid, after, u)
    ensures RowsWiped(site, after, users + [u]) && SessionsCameFrom(site.sessions, after.sessions)
  {
    forall v | v in users + [u]
      ensures NothingOf(after, v)
    {
      WipingKeepsNothing(mid, after, u, v);
    }
    assert forall v :: v in users + [u] <==> v in users || v == u;
    forall row
      ensures row in after.rooms <==> row in site.rooms && forall v | v in users + [u] :: !Involves(row, v)
    {
      assert row in after.rooms <==> row in mid.rooms && !Involves(row, u);
    }
  }

  lemma {:induction false} WipeUsersIsExact(site: Site, users: seq<User>)
    requires DistinctRooms(site) && SessionsOk(site)
    ensures RowsWiped(site, WipeUsers(site, users), users)
    ensures SessionsCameFrom(site.sessions, WipeUsers(site, users).sessions)
  {
    if users != [] {
      var init, last := users[..|users| - 1], users[|users| - 1];
      assert users == init + [last];
      WipeUsersIsExact(site, init);
      WipeUsersKeepsInv(site, init);
      WipeUserIsExact(WipeUsers(site, init), last);
      OneMoreWiped(site, WipeUsers(site, init), WipeUsers(site, users), init, last);
    }
  }

  ghost function AnySession(sessions: seq<Session>): (r: Option<Session>)
    ensures r.None? <==> sessions == []
    ensures r.Some? ==> r.value in sessions
  {
    if sessions == [] then None else Some(sessions[0])
  }

  lemma NobodyLeft(site: Site, guests: seq<User>)
    requires (forall s | s in site.sessions :: s.guest in guests) && forall u | u in guests :: NothingOf(site, u)
    ensures site.sessions == []
  {
    var first := AnySession(site.sessions);
  }

  /** Clearing all guests leaves no session at all, and no conversation or room of anyone who had one; everything
      that involves none of them stays, no balance changes, and a second run finds nothing to do. */
  lemma ClearAllLeavesNothing(site: Site)
    requires SiteInv(site)
    ensures var after := ClearAll(site);
            && after.sessions == [] && after.books == site.books
            && (forall u | u in AllGuests(site) :: NothingOf(after, u))
            && (forall p :: p in after.conversations <==>
                            p in site.conversations && p.low !in AllGuests(site) && p.high !in AllGuests(site))
            && (forall row :: row in after.rooms <==> row in site.rooms && forall u | u in AllGuests(site) :: !Involves(row, u))
            && AllGuests(after) == [] && ClearAll(after) == after
  {
    var after := ClearAll(site);
    var guests := AllGuests(site);
    WipeUsersIsExact(site, guests);
    WipeUsersKeepsInv(site, guests);
    GuestsAreExact(site);
    NobodyLeft(after, guests);
  }

  lemma GuestsAreExact(site: Site)
    ensures NoDup(AllGuests(site)) && forall u :: u in AllGuests(site) <==> exists s :: s in site.sessions && s.guest == u
  {
    var guests := SessionGuests(site.sessions);
    DedupeIsDistinct(guests);
    forall u
      ensures u in guests <==> exists s :: s in site.sessions && s.guest == u
    {
      if u in guests {
        var i :| 0 <= i < |guests| && guests[i] == u;
        assert site.sessions[i] in site.sessions;
      }
      if s :| s in site.sessions && s.guest == u {
        var i :| 0 <= i < |site.sessions| && site.sessions[i] == s;
        assert guests[i] == u;
      }
    }
  }

  /** By the time the balance is reset the user's sessions are gone, so the guest path of the reset is never taken. */
  lemma ResetNeverTakesGuestPath(site: Site, u: User, target: int)
    requires DistinctRooms(site)
    ensures GuestTokens.Reset(WipeUser(site, u).books, Registered(WipeUser(site, u)), u, target) ==
            Err(GuestTokens.GuestNotFound)
  {
    WipeUserIsExact(site, u);
    GuestsAreExact(WipeUser(site, u));
  }

  lemma {:induction false} KeepAllRooms(rooms: seq<RoomRow>)
    ensures RoomsWithout(rooms, {}) == rooms
  {
    if rooms != [] {
      KeepAllRooms(rooms[..|rooms| - 1]);
    }
  }

  lemma {:induction false} KeepAllConversations(conversations: seq<Conversation>, u: User)
    requires forall k | 0 <= k < |conversations| :: conversations[k].low != u && conversations[k].high != u
    ensures ConversationsWithout(conversations, u) == conversations
  {
    if conversations != [] {
      KeepAllConversations(conversations[..|conversations| - 1], u);
    }
  }

  lemma {:induction false} KeepAllSessions(sessions: seq<Session>, u: User)
    requires forall k | 0 <= k < |sessions| :: sessions[k].guest != u
    ensures SessionsWithout(sessions, u) == sessions
  {
    if sessions != [] {
      KeepAllSessions(sessions[..|sessions| - 1], u);
    }
  }

  lemma NoRoomsOf(rooms: seq<RoomRow>, u: User)
    requires forall row | row in rooms :: !Involves(row, u)
    ensures RoomIdsOf(rooms, u) == {}
  {
    assert forall k | 0 <= k < |rooms| :: rooms[k] in rooms;
  }

  lemma UnlinkNothing(sessions: seq<Session>)
    ensures Unlink(sessions, {}) == sessions
  {
  }

  lemma WipingNothing(site: Site, u: User)
    requires NothingOf(site, u)
    ensures WipeUser(site, u) == site
  {
    assert forall k | 0 <= k < |site.conversations| :: site.conversations[k] in site.conversations;
    assert forall k | 0 <= k < |site.sessions| :: site.sessions[k] in site.sessions;
    KeepAllConversations(site.conversations, u);
    NoRoomsOf(site.rooms, u);
    KeepAllRooms(site.rooms);
    UnlinkNothing(site.sessions);
    KeepAllSessions(site.sessions, u);
  }

  lemma ClearUserWipes(site: Site, u: User, target: int)
    requires SiteInv(site)
    ensures var (after, r) := ClearUser(site, u, target);
            && (r.Some? <==> target >= 0)
            && (r.None? ==> after == site)
            && (r.Some? ==> NothingOf(after, u) && OnlyWiped(site, after, u) && r.value == Removed(site, after))
            && (r.Some? ==> forall v :: Balance(after.books, v) == if v == u then target else Balance(site.books, v))
  {
    WipeUserKeepsInv(site, u);
    WipeUserIsExact(site, u);
    ResetBalanceIsExact(WipeUser(site, u), u, target);
    GuestTokens.SetBalanceIsExact(site.books, u, target);
  }

  lemma ClearingNothing(site: Site, u: User)
    requires NothingOf(site, u) && Balance(site.books, u) >= 0
    ensures ClearUser(site, u, Balance(site.books, u)) == (site, Some(Wiped(0, 0, 0)))
  {
    WipingNothing(site, u);
    ResetBalanceIsExact(site, u, Balance(site.books, u));
  }

  /** Clearing one user succeeds for every non-negative target and only then: nothing of the user is left, everybody
      else's rows stay, the balance is the target, nobody else's balance moves, and clearing again removes nothing and
      moves nothing. */
  lemma ClearUserIsExact(site: Site, u: User, target: int)
    requires SiteInv(site)
    ensures var (after, r) := ClearUser(site, u, target);
            && (r.Some? <==> target >= 0)
            && (r.None? ==> after == site)
            && (r.Some? ==> NothingOf(after, u) && OnlyWiped(site, after, u) && r.value == Removed(site, after))
            && (r.Some? ==> forall v :: Balance(after.books, v) == if v == u then target else Balance(site.books, v))
            && (r.Some? ==>
                  && r.value.conversations == |site.conversations| - |after.conversations|
                  && r.value.rooms == |site.rooms| - |after.rooms| && r.value.sessions == |site.sessions| - |after.sessions|)
            && (r.Some? ==> ClearUser(after, u, target) == (after, Some(Wiped(0, 0, 0))))
  {
    ClearUserWipes(site, u, target);
    if target >= 0 {
      ClearingNothing(ClearUser(site, u, target).0, u);
    }
  }
}
