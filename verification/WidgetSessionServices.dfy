/** The widget start and cleanup services over the live tables, each method tied to its function in
    `WidgetSessions`. */
module WidgetSessionServices {
  import opened Common
  import opened Text
  import opened Conversations
  import opened Ledger
  import opened WidgetMeter
  import opened Rooms
  import opened WidgetSessions

  class Database {
    var site: Site

    constructor (site: Site)
      ensures this.site == site
    {
      this.site := site;
    }
  }

  class WidgetStartService {
    const db: Database

    constructor (db: Database)
      ensures this.db == db
    {
      this.db := db;
    }

    method ResolveMembers(directory: map<string, User>, nicknames: seq<string>) returns (r: Result<seq<User>, StartError>)
      ensures r == WidgetSessions.ResolveMembers(directory, nicknames)
    {
      var resolved := [];
      for k := 0 to |nicknames|
        invariant WidgetSessions.ResolveMembers(directory, nicknames[..k]) == Ok(resolved)
      {
        assert nicknames[..k + 1][..k] == nicknames[..k];
        if nicknames[k] !in directory {
          UnknownSticks(directory, nicknames, k + 1);
          return Err(UnknownMember(nicknames[k]));
        }
        resolved := resolved + [directory[nicknames[k]]];
      }
      assert nicknames[..|nicknames|] == nicknames;
      r := Ok(resolved);
    }

    /** `_reject_human_members`: the member that stops the start, if there is one. */
    method RejectHumanMembers(ids: seq<User>) returns (r: Option<User>)
      ensures r == FirstHuman(db.site.roles, ids)
    {
      for k := 0 to |ids|
        invariant FirstHuman(db.site.roles, ids) == FirstHuman(db.site.roles, ids[k..])
      {
        if !IsBot(db.site.roles, ids[k]) {
          return Some(ids[k]);
        }
        assert ids[k..][1..] == ids[k + 1..];
      }
      r := None;
    }

    /** Provision, open the room, keep the session, grant: in this order, and only after every check. */
    method StartPublic(req: Request, members: seq<string>) returns (r: Result<Started, StartError>)
      modifies db
      ensures (db.site, r) == WidgetSessions.StartPublic(old(db.site), req, members)
    {
      var reused := Reuse(db.site, req.slug, req.presented);
      if reused.Some? {
        return Ok(reused.value);
      }
      if req.displayName.None? || Strip(req.displayName.value) == "" {
        return Err(DisplayNameRequired);
      }
      var resolved := ResolveMembers(req.directory, members);
      if resolved.Err? {
        return Err(resolved.error);
      }
      var human := RejectHumanMembers(resolved.value);
      if human.Some? {
        return Err(HumanMember(human.value));
      }
      if !req.provisions {
        return Err(NoNickname);
      }
      var guest := db.site.nextUser;
      db.site := db.site.(nextUser := guest + 1, roles := db.site.roles[guest := Guest]);
      var room := db.site.nextRoom;
      db.site := OpenRoom(db.site, guest, resolved.value, req.slug);
      db.site := db.site.(sessions := db.site.sessions + [Session(guest, req.slug, Some(room))]);
      if req.budget.enabled && req.budget.initial > 0 {
        db.site := db.site.(books := Credit(db.site.books, guest, req.budget.initial, InitialGrant));
      }
      db.site := db.site.(history := db.site.history + [Provision(guest, req.budget)]);
      r := Ok(Started(room, Some(guest)));
    }

    method Start(req: Request) returns (r: Result<Started, StartError>)
      modifies db
      ensures (db.site, r) == WidgetSessions.Start(old(db.site), req)
      ensures db.site == Step(old(db.site), DoStart(req))
    {
      if req.widget.None? {
        return Err(WidgetNotFound);
      }
      if req.widget.value.isPublic {
        r := StartPublic(req, req.widget.value.members);
        return;
      }
      if req.caller.None? {
        return Err(AuthRequired);
      }
      if !req.callerNamed {
        return Err(NicknameRequired);
      }
      var resolved := ResolveMembers(req.directory, req.widget.value.members);
      if resolved.Err? {
        return Err(resolved.error);
      }
      var room := db.site.nextRoom;
      db.site := OpenRoom(db.site, req.caller.value, resolved.value, req.slug);
      r := Ok(Started(room, None));
    }
  }

  /** The first unknown nickname decides. */
  lemma {:induction false} UnknownSticks(directory: map<string, User>, nicknames: seq<string>, k: nat)
    requires k <= |nicknames| && WidgetSessions.ResolveMembers(directory, nicknames[..k]).Err?
    ensures WidgetSessions.ResolveMembers(directory, nicknames) == WidgetSessions.ResolveMembers(directory, nicknames[..k])
    decreases |nicknames|
  {
    if k == |nicknames| {
      assert nicknames[..k] == nicknames;
    } else {
      var init := nicknames[..|nicknames| - 1];
      assert init[..k] == nicknames[..k];
      UnknownSticks(directory, init, k);
    }
  }

  // ---- Cleanup ---------------------------------------------------------------------------------------------

  lemma {:induction false} RoomsWithoutTwice(rooms: seq<RoomRow>, a: set<nat>, b: set<nat>)
    ensures RoomsWithout(RoomsWithout(rooms, a), b) == RoomsWithout(rooms, a + b)
  {
    if rooms != [] {
      var init, last := rooms[..|rooms| - 1], rooms[|rooms| - 1];
      RoomsWithoutTwice(init, a, b);
      var left := RoomsWithout(init, a);
      if last.id in a {
        assert left + [] == left;
      } else {
        assert (left + [last])[..|left + [last]| - 1] == left;
      }
    }
  }

  lemma DeleteRoomsTwice(site: Site, a: set<nat>, b: set<nat>)
    ensures DeleteRooms(DeleteRooms(site, a), b) == DeleteRooms(site, a + b)
  {
    RoomsWithoutTwice(site.rooms, a, b);
    assert Unlink(Unlink(site.sessions, a), b) == Unlink(site.sessions, a + b);
  }

  lemma {:induction false} RoomsWithoutOthers(rooms: seq<RoomRow>, ids: set<nat>, id: nat)
    requires forall row | row in rooms :: row.id != id
    ensures RoomsWithout(rooms, ids) == RoomsWithout(rooms, ids - {id})
  {
    if rooms != [] {
      RoomsWithoutOthers(rooms[..|rooms| - 1], ids, id);
      assert rooms[|rooms| - 1] in rooms;
    }
  }

  /** As many rows go as there are ids to delete. */
  lemma {:induction false} RoomsWithoutCount(rooms: seq<RoomRow>, ids: set<nat>)
    requires OneRowPerId(rooms) && forall id | id in ids :: exists row :: row in rooms && row.id == id
    ensures |RoomsWithout(rooms, ids)| == |rooms| - |ids|
  {
    if rooms == [] {
      assert ids == {};
    } else {
      var init, last := rooms[..|rooms| - 1], rooms[|rooms| - 1];
      assert forall row | row in init :: row.id != last.id;
      forall id | id in ids - {last.id}
        ensures exists row :: row in init && row.id == id
      {
        var row :| row in rooms && row.id == id;
        assert rooms == init + [last];
      }
      RoomsWithoutOthers(init, ids, last.id);
      RoomsWithoutCount(init, ids - {last.id});
    }
  }

  function Plus(a: Wiped, b: Wiped): Wiped {
    Wiped(a.conversations + b.conversations, a.rooms + b.rooms, a.sessions + b.sessions)
  }

  lemma RemovedAdds(a: Site, b: Site, c: Site)
    ensures Plus(Removed(a, b), Removed(b, c)) == Removed(a, c)
  {
  }

  class SessionCleanupService {
    const db: Database

    constructor (db: Database)
      ensures this.db == db
    {
      this.db := db;
    }

    method DeleteConversationsFor(u: User) returns (count: int)
      modifies db
      ensures db.site == old(db.site).(conversations := ConversationsWithout(old(db.site).conversations, u))
      ensures count == |old(db.site).conversations| - |db.site.conversations|
    {
      var conversations, kept := db.site.conversations, [];
      count := 0;
      for k := 0 to |conversations|
        invariant kept == ConversationsWithout(conversations[..k], u) && count == k - |kept|
      {
        assert conversations[..k + 1][..k] == conversations[..k];
        if conversations[k].low == u || conversations[k].high == u {
          count := count + 1;
        } else {
          kept := kept + [conversations[k]];
        }
      }
      assert conversations[..|conversations|] == conversations;
      db.site := db.site.(conversations := kept);
    }

    /** The rooms the user is in, then the rooms the user created, each once. */
    method CollectRoomsOf(u: User) returns (found: set<nat>)
      ensures found == RoomIdsOf(db.site.rooms, u)
    {
      var rooms := db.site.rooms;
      found := {};
      for k := 0 to |rooms|
        invariant found == set j | 0 <= j < k && IsIn(rooms[j].room, u) :: rooms[j].id
      {
        if IsIn(rooms[k].room, u) {
          found := found + {rooms[k].id};
        }
      }
      ghost var joined := found;
      for k := 0 to |rooms|
        invariant found == joined + set j | 0 <= j < k && rooms[j].room.creator == u :: rooms[j].id
      {
        if rooms[k].room.creator == u {
          found := found + {rooms[k].id};
        }
      }
    }

    /** One deletion after another. */
    method DeleteEach(ids: set<nat>)
      modifies db
      ensures db.site == DeleteRooms(old(db.site), ids)
    {
      ghost var done: set<nat> := {};
      var todo := ids;
      DeletingNone(db.site);
      while todo != {}
        invariant done + todo == ids
        invariant db.site == DeleteRooms(old(db.site), done)
      {
        var id :| id in todo;
        DeleteRoomsTwice(old(db.site), done, {id});
        db.site := DeleteRooms(db.site, {id});
        todo, done := todo - {id}, done + {id};
      }
      assert done == ids;
    }

    method DeleteRoomsFor(u: User) returns (count: int)
      requires OneRowPerId(db.site.rooms)
      modifies db
      ensures db.site == DeleteRooms(old(db.site), RoomIdsOf(old(db.site).rooms, u))
      ensures count == |old(db.site).rooms| - |db.site.rooms|
    {
      var found := CollectRoomsOf(u);
      RoomsWithoutCount(db.site.rooms, found);
      DeleteEach(found);
      count := |found|;
    }

    method DeleteGuestSessionsFor(u: User) returns (count: int)
      modifies db
      ensures db.site == old(db.site).(sessions := SessionsWithout(old(db.site).sessions, u))
      ensures count == |old(db.site).sessions| - |db.site.sessions|
    {
      var sessions, kept := db.site.sessions, [];
      count := 0;
      for k := 0 to |sessions|
        invariant kept == SessionsWithout(sessions[..k], u) && count == k - |kept|
      {
        assert sessions[..k + 1][..k] == sessions[..k];
        if sessions[k].guest == u {
          count := count + 1;
        } else {
          kept := kept + [sessions[k]];
        }
      }
      assert sessions[..|sessions|] == sessions;
      db.site := db.site.(sessions := kept);
    }

    method WipeUser(u: User) returns (wiped: Wiped)
      requires DistinctRooms(db.site) && SessionsOk(db.site)
      modifies db
      ensures db.site == WidgetSessions.WipeUser(old(db.site), u) && wiped == Removed(old(db.site), db.site)
    {
      WipeUserKeepsInv(db.site, u);
      var conversations := DeleteConversationsFor(u);
      var rooms := DeleteRoomsFor(u);
      var sessions := DeleteGuestSessionsFor(u);
      wiped := Wiped(conversations, rooms, sessions);
    }

    /** Each guest in turn; the counts add up to the rows that are gone. */
    method ClearAllGuestSessions() returns (guests: nat, wiped: Wiped)
      requires DistinctRooms(db.site) && SessionsOk(db.site)
      modifies db
      ensures db.site == ClearAll(old(db.site)) && wiped == Removed(old(db.site), db.site)
      ensures wiped.conversations == |old(db.site).conversations| - |db.site.conversations|
      ensures wiped.rooms == |old(db.site).rooms| - |db.site.rooms|
      ensures wiped.sessions == |old(db.site).sessions| - |db.site.sessions|
      ensures guests == |AllGuests(old(db.site))|
      ensures db.site == Step(old(db.site), DoClearAll)
    {
      var ids := AllGuests(db.site);
      wiped := Wiped(0, 0, 0);
      for k := 0 to |ids|
        invariant DistinctRooms(db.site) && SessionsOk(db.site)
        invariant db.site == WipeUsers(old(db.site), ids[..k]) && wiped == Removed(old(db.site), db.site)
      {
        assert ids[..k + 1][..k] == ids[..k];
        WipeUserKeepsInv(db.site, ids[k]);
        ghost var mid := db.site;
        var one := WipeUser(ids[k]);
        RemovedAdds(old(db.site), mid, db.site);
        wiped := Plus(wiped, one);
      }
      assert ids[..|ids|] == ids;
      guests := |ids|;
    }

    /** The route's rollback undoes the wipe when the reset fails. */
    method ClearUserSessions(u: User, target: int) returns (r: Option<Wiped>)
      requires DistinctRooms(db.site) && SessionsOk(db.site)
      modifies db
      ensures (db.site, r) == ClearUser(old(db.site), u, target)
      ensures u < old(db.site).nextUser ==> db.site == Step(old(db.site), DoClearUser(u, target))
    {
      var before := db.site;
      var wiped := WipeUser(u);
      var books := ResetBalance(db.site, u, target);
      if books.None? {
        db.site := before;
        return None;
      }
      db.site := db.site.(books := books.value);
      r := Some(wiped);
    }
  }

  lemma DeletingNone(site: Site)
    ensures DeleteRooms(site, {}) == site
  {
    KeepAllRooms(site.rooms);
    UnlinkNothing(site.sessions);
  }
}
