/** The room service over its membership table, each method tied to its function in `Rooms`. */
module RoomServices {
  import opened Common
  import opened Conversations
  import opened Rooms
  import opened Protocols

  /** Everyone in the room could take part in an end-to-end encrypted conversation. */
  ghost predicate FitsEncryption(inst: Instance, roles: map<User, UserRole>, r: Room) {
    forall u :: IsIn(r, u) ==> u in inst.keyed && !(u in roles && roles[u] == BotRole)
  }

  /** Inviting does not look at the protocol pinned at creation: a room whose members all fit end-to-end encryption
      still does after an invitation exactly when nobody new came in or the newcomer fits it too. */
  lemma InviteMayBreakThePin(inst: Instance, roles: map<User, UserRole>, r: Room, inviter: User, invitee: User)
    requires FitsEncryption(inst, roles, r)
    ensures FitsEncryption(inst, roles, Rooms.Invite(r, inviter, invitee).0) <==>
              || !IsIn(r, inviter) || IsIn(r, invitee)
              || (invitee in inst.keyed && !(invitee in roles && roles[invitee] == BotRole))
  {
    if !IsIn(r, invitee) {
      AddedIsIn(r, invitee, Member);
    }
  }

  lemma PairFits(creator: User, peer: User)
    ensures FitsEncryption(Instance({E2eV1, PlainText}, {creator, peer}), map[], Rooms.CreateRoom(creator, [peer]))
    ensures forall u :: IsIn(Rooms.CreateRoom(creator, [peer]), u) <==> u == creator || u == peer
  {
    CreateRoomIsExact(creator, [peer]);
  }

  /** A room pinned to encryption at its creation, and a newcomer without a key: the pin stays and fits no more. */
  lemma InviteBreaksThePin(creator: User, peer: User, newcomer: User)
    requires creator != peer && newcomer != creator && newcomer != peer
    ensures var inst := Instance({E2eV1, PlainText}, {creator, peer});
            var r := Rooms.CreateRoom(creator, [peer]);
            && Select(inst, [creator, peer], map[], None) == E2eV1
            && FitsEncryption(inst, map[], r)
            && !FitsEncryption(inst, map[], Rooms.Invite(r, creator, newcomer).0)
  {
    PairFits(creator, peer);
    InviteMayBreakThePin(Instance({E2eV1, PlainText}, {creator, peer}), map[], Rooms.CreateRoom(creator, [peer]), creator,
                         newcomer);
  }

  /** A room pinned to encryption at its creation has no bot and only keyed members. */
  lemma PinFitsEverybody(inst: Instance, creator: User, users: seq<User>, roles: map<User, UserRole>,
                         accepted: Option<seq<Protocol>>)
    ensures Select(inst, [creator] + Except(Dedupe(users), creator), roles, accepted) == E2eV1 ==>
              NoBot([creator] + users, roles) && AllKeyed(inst, [creator] + users)
  {
    var all := [creator] + Except(Dedupe(users), creator);
    DedupeIsDistinct(users);
    ExceptMembers(Dedupe(users), creator);
    SelectIsExact(inst, all, roles, accepted);
    assert forall u | u in [creator] + users :: u in all;
  }

  class RoomService {
    var rooms: seq<Room>                    // a room's id is its position
    var protocols: seq<Protocol>            // pinned when the room is created
    const inst: Instance

    constructor (inst: Instance)
      ensures this.inst == inst && rooms == [] && protocols == []
    {
      this.inst := inst;
      rooms, protocols := [], [];
    }

    /** One row for the creator, then one for each distinct other user, under the protocol selected for them all. */
    method CreateRoom(creator: User, users: seq<User>, roles: map<User, UserRole>, accepted: Option<seq<Protocol>>)
      returns (id: nat)
      modifies this
      ensures id == old(|rooms|) && rooms == old(rooms) + [Rooms.CreateRoom(creator, users)]
      ensures protocols == old(protocols) + [Select(inst, [creator] + Except(Dedupe(users), creator), roles, accepted)]
      ensures protocols[|protocols| - 1] == E2eV1 ==> NoBot([creator] + users, roles) && AllKeyed(inst, [creator] + users)
    {
      var distinct := DedupePreservingOrder(users);
      var others := Except(distinct, creator);
      var protocol := Select(inst, [creator] + others, roles, accepted);
      id := |rooms|;
      var room := Add(Room(creator, [], []), creator, Admin);
      for k := 0 to |others|
        invariant room == AddAll(Add(Room(creator, [], []), creator, Admin), others[..k])
      {
        assert others[..k + 1][..k] == others[..k];
        room := Add(room, others[k], Member);
      }
      assert others[..|others|] == others;
      rooms := rooms + [room];
      protocols := protocols + [protocol];
      PinFitsEverybody(inst, creator, users, roles, accepted);
    }

    method Invite(id: nat, inviter: User, invitee: User) returns (r: Result<(), RoomError>)
      modifies this
      ensures protocols == old(protocols)
      ensures id >= old(|rooms|) ==> rooms == old(rooms) && r == Err(RoomNotFound)
      ensures id < old(|rooms|) ==>
                rooms == old(rooms)[id := Rooms.Invite(old(rooms[id]), inviter, invitee).0] &&
                r == Rooms.Invite(old(rooms[id]), inviter, invitee).1
      ensures id < old(|rooms|) ==> rooms[id] == Rooms.Apply(old(rooms[id]), OpInvite(inviter, invitee))
    {
      if id >= |rooms| {
        return Err(RoomNotFound);
      }
      if !IsIn(rooms[id], inviter) {
        return Err(NotARoomMember);
      }
      if !IsIn(rooms[id], invitee) {
        rooms := rooms[id := Add(rooms[id], invitee, Member)];
      }
      r := Ok(());
    }

    method RemoveMember(id: nat, actor: User, target: User) returns (r: Result<(), RoomError>)
      modifies this
      ensures protocols == old(protocols)
      ensures id >= old(|rooms|) ==> rooms == old(rooms) && r == Err(RoomNotFound)
      ensures id < old(|rooms|) ==>
                rooms == old(rooms)[id := Rooms.RemoveMember(old(rooms[id]), actor, target).0] &&
                r == Rooms.RemoveMember(old(rooms[id]), actor, target).1
      ensures id < old(|rooms|) ==> rooms[id] == Rooms.Apply(old(rooms[id]), OpRemove(actor, target))
    {
      if id >= |rooms| {
        return Err(RoomNotFound);
      }
      var room := rooms[id];
      if actor != target {
        if !IsIn(room, actor) {
          return Err(NotARoomMember);
        }
        if !IsAdmin(room, actor) {
          return Err(PermissionDenied);
        }
      }
      var row := Find(room.members, target);
      if row.None? {
        return Err(NotARoomMember);
      }
      room := room.(members := room.members[..row.value] + room.members[row.value + 1..],
                    log := room.log + [Gone(target, actor)]);
      rooms := rooms[id := room];
      r := Ok(());
    }

    method Leave(id: nat, user: User) returns (r: Result<(), RoomError>)
      modifies this
      ensures protocols == old(protocols)
      ensures id >= old(|rooms|) ==> rooms == old(rooms) && r == Err(RoomNotFound)
      ensures id < old(|rooms|) ==>
                rooms == old(rooms)[id := Rooms.RemoveMember(old(rooms[id]), user, user).0] &&
                (r.Ok? <==> IsIn(old(rooms[id]), user))
    {
      r := RemoveMember(id, user, user);
    }

    /** The fan-out: one loop over the roster, one more unread for everyone but the sender. */
    method SendRoomText(id: nat, sender: User, draft: Draft) returns (r: Result<(), RoomError>)
      modifies this
      ensures protocols == old(protocols)
      ensures id >= old(|rooms|) ==> rooms == old(rooms) && r == Err(RoomNotFound)
      ensures id < old(|rooms|) ==>
                rooms == old(rooms)[id := Rooms.SendRoomText(old(rooms[id]), sender, draft).0] &&
                r == Rooms.SendRoomText(old(rooms[id]), sender, draft).1
      ensures id < old(|rooms|) ==> rooms[id] == Rooms.Apply(old(rooms[id]), OpSend(sender, draft))
    {
      if id >= |rooms| {
        return Err(RoomNotFound);
      }
      var room := rooms[id];
      if !IsIn(room, sender) {
        return Err(NotARoomMember);
      }
      var refused := DraftError(draft);
      if refused.Some? {
        return Err(BodyRefused(refused.value));
      }
      var members := room.members;
      for k := 0 to |members|
        invariant |members| == |room.members|
        invariant forall j | 0 <= j < |members| ::
          members[j] == if j < k then BumpOthers(room.members, sender)[j] else room.members[j]
      {
        if members[k].user != sender {
          members := members[k := members[k].(unread := members[k].unread + 1)];
        }
      }
      assert members == BumpOthers(room.members, sender);
      rooms := rooms[id := room.(members := members, log := room.log + [Posted(sender)])];
      r := Ok(());
    }

    method MarkRoomRead(id: nat, reader: User) returns (r: Result<(), RoomError>)
      modifies this
      ensures protocols == old(protocols)
      ensures id >= old(|rooms|) ==> rooms == old(rooms) && r == Err(RoomNotFound)
      ensures id < old(|rooms|) ==>
                rooms == old(rooms)[id := Rooms.MarkRoomRead(old(rooms[id]), reader).0] &&
                r == Rooms.MarkRoomRead(old(rooms[id]), reader).1
      ensures id < old(|rooms|) ==> rooms[id] == Rooms.Apply(old(rooms[id]), Rooms.OpRead(reader))
    {
      if id >= |rooms| {
        return Err(RoomNotFound);
      }
      var room := rooms[id];
      if !IsIn(room, reader) {
        return Err(NotARoomMember);
      }
      var members := room.members;
      for k := 0 to |members|
        invariant |members| == |room.members|
        invariant forall j | 0 <= j < |members| ::
          members[j] == if j < k then ClearOwn(room.members, reader)[j] else room.members[j]
      {
        if members[k].user == reader {
          members := members[k := members[k].(unread := 0)];
        }
      }
      assert members == ClearOwn(room.members, reader);
      rooms := rooms[id := room.(members := members, log := room.log + [RoomRead(reader)])];
      r := Ok(());
    }
  }
}
