/** Rooms: membership, authority and the per-member unread counters. */
module Rooms {
  import opened Common
  import opened Conversations

  datatype RoomRole = Admin | Member

  datatype Membership = Membership(user: User, role: RoomRole, unread: nat)

  /** What happened in the room, in order. */
  datatype RoomEvent = Joined(user: User) | Gone(user: User, actor: User) | Posted(sender: User) | RoomRead(reader: User)

  /** Members in the order they joined. */
  datatype Room = Room(creator: User, members: seq<Membership>, log: seq<RoomEvent>)

  datatype RoomError = RoomNotFound | NotARoomMember | PermissionDenied | BodyRefused(error: Error)

  /** The position of the user's membership row. */
  function Find(members: seq<Membership>, u: User): (r: Option<nat>)
    ensures r.Some? ==> r.value < |members| && members[r.value].user == u
    ensures r.None? ==> forall k | 0 <= k < |members| :: members[k].user != u
  {
    if members == [] then None
    else if members[|members| - 1].user == u then Some(|members| - 1)
    else Find(members[..|members| - 1], u)
  }

  predicate IsIn(r: Room, u: User) {
    Find(r.members, u).Some?
  }

  predicate IsAdmin(r: Room, u: User) {
    Find(r.members, u).Some? && r.members[Find(r.members, u).value].role == Admin
  }

  /** `_add_member` */
  function Add(r: Room, u: User, role: RoomRole): Room {
    r.(members := r.members + [Membership(u, role, 0)], log := r.log + [Joined(u)])
  }

  function AddAll(r: Room, users: seq<User>): Room {
    if users == [] then r else Add(AddAll(r, users[..|users| - 1]), users[|users| - 1], Member)
  }

  function Except(users: seq<User>, u: User): seq<User> {
    if users == [] then []
    else Except(users[..|users| - 1], u) + if users[|users| - 1] == u then [] else [users[|users| - 1]]
  }

  /** The creator as admin, every other distinct user as a plain member. */
  function CreateRoom(creator: User, users: seq<User>): Room {
    AddAll(Add(Room(creator, [], []), creator, Admin), Except(Dedupe(users), creator))
  }

  /** Any member may invite; inviting a member again changes nothing. */
  function Invite(r: Room, inviter: User, invitee: User): (Room, Result<(), RoomError>) {
    if !IsIn(r, inviter) then (r, Err(NotARoomMember))
    else if IsIn(r, invitee) then (r, Ok(()))
    else (Add(r, invitee, Member), Ok(()))
  }

  /** An admin may remove anyone, and everyone may remove themselves. */
  function RemoveMember(r: Room, actor: User, target: User): (Room, Result<(), RoomError>) {
    if actor != target && !IsIn(r, actor) then (r, Err(NotARoomMember))
    else if actor != target && !IsAdmin(r, actor) then (r, Err(PermissionDenied))
    else
      match Find(r.members, target)
      case None => (r, Err(NotARoomMember))
      case Some(k) => (r.(members := r.members[..k] + r.members[k + 1..], log := r.log + [Gone(target, actor)]), Ok(()))
  }

  function BumpOthers(members: seq<Membership>, sender: User): seq<Membership> {
    seq(|members|, i requires 0 <= i < |members| =>
      if members[i].user == sender then members[i] else members[i].(unread := members[i].unread + 1))
  }

  function ClearOwn(members: seq<Membership>, reader: User): seq<Membership> {
    seq(|members|, i requires 0 <= i < |members| =>
      if members[i].user == reader then members[i].(unread := 0) else members[i])
  }

  function SendRoomText(r: Room, sender: User, draft: Draft): (Room, Result<(), RoomError>) {
    if !IsIn(r, sender) then (r, Err(NotARoomMember))
    else
      match DraftError(draft)
      case Some(e) => (r, Err(BodyRefused(e)))
      case None => (r.(members := BumpOthers(r.members, sender), log := r.log + [Posted(sender)]), Ok(()))
  }

  function MarkRoomRead(r: Room, reader: User): (Room, Result<(), RoomError>) {
    if !IsIn(r, reader) then (r, Err(NotARoomMember))
    else (r.(members := ClearOwn(r.members, reader), log := r.log + [RoomRead(reader)]), Ok(()))
  }

  datatype Op =
    | OpInvite(inviter: User, invitee: User)
    | OpRemove(actor: User, target: User)
    | OpSend(sender: User, draft: Draft)
    | OpRead(reader: User)

  function Apply(r: Room, op: Op): Room {
    match op
    case OpInvite(inviter, invitee) => Invite(r, inviter, invitee).0
    case OpRemove(actor, target) => RemoveMember(r, actor, target).0
    case OpSend(sender, draft) => SendRoomText(r, sender, draft).0
    case OpRead(reader) => MarkRoomRead(r, reader).0
  }

  /** A room's whole life: how it was created, and everything done to it since. */
  function Run(creator: User, users: seq<User>, ops: seq<Op>): Room {
    if ops == [] then CreateRoom(creator, users)
    else Apply(Run(creator, users, ops[..|ops| - 1]), ops[|ops| - 1])
  }

  // ---- Membership and authority ----------------------------------------------------------------------------

  ghost predicate OneRowEach(members: seq<Membership>) {
    forall i, j | 0 <= i < j < |members| :: members[i].user != members[j].user
  }

  ghost predicate OnlyCreatorRules(r: Room) {
    forall k | 0 <= k < |r.members| :: r.members[k].role == Admin ==> r.members[k].user == r.creator
  }

  ghost predicate NoAdmin(r: Room) {
    forall k | 0 <= k < |r.members| :: r.members[k].role != Admin
  }

  // ---- Unread -----------------------------------------------------------------------------------------------

  ghost predicate QuietSince(log: seq<RoomEvent>, u: User, i: nat) {
    forall j | i < j < |log| :: log[j] != Joined(u) && log[j] != RoomRead(u)
  }

  /** The posts by others after which u has neither joined nor read the room. */
  ghost function UnreadAt(log: seq<RoomEvent>, u: User): set<nat> {
    set i | 0 <= i < |log| && log[i].Posted? && log[i].sender != u && QuietSince(log, u, i)
  }

  lemma UnreadAfter(log: seq<RoomEvent>, e: RoomEvent, u: User)
    ensures UnreadAt(log + [e], u) ==
            if e == Joined(u) || e == RoomRead(u) then {}
            else UnreadAt(log, u) + if e.Posted? && e.sender != u then {|log|} else {}
  {
    var after := log + [e];
    if e == Joined(u) || e == RoomRead(u) {
      forall i: nat | i < |log|
        ensures !QuietSince(after, u, i)
      {
        assert after[|log|] == e;
      }
    } else {
      forall i: nat
        ensures QuietSince(after, u, i) == QuietSince(log, u, i)
      {
        if QuietSince(after, u, i) {
          assert forall j | i < j < |log| :: after[j] == log[j];
        }
      }
    }
  }

  lemma UnreadCountAfter(log: seq<RoomEvent>, e: RoomEvent, u: User)
    ensures |UnreadAt(log + [e], u)| ==
            if e == Joined(u) || e == RoomRead(u) then 0
            else |UnreadAt(log, u)| + if e.Posted? && e.sender != u then 1 else 0
  {
    UnreadAfter(log, e, u);
    assert |log| !in UnreadAt(log, u);
  }

  ghost predicate CountersOk(r: Room) {
    forall k | 0 <= k < |r.members| :: r.members[k].unread == |UnreadAt(r.log, r.members[k].user)|
  }

  ghost predicate RoomInv(r: Room) {
    OneRowEach(r.members) && OnlyCreatorRules(r) && CountersOk(r)
  }

  lemma AddKeepsInv(r: Room, u: User, role: RoomRole)
    requires RoomInv(r) && !IsIn(r, u) && (role == Admin ==> u == r.creator)
    ensures RoomInv(Add(r, u, role))
  {
    var after := Add(r, u, role);
    forall k | 0 <= k < |after.members|
      ensures after.members[k].unread == |UnreadAt(after.log, after.members[k].user)|
    {
      UnreadCountAfter(r.log, Joined(u), after.members[k].user);
    }
  }

  lemma RemoveKeepsInv(r: Room, actor: User, target: User)
    requires RoomInv(r)
    ensures RoomInv(RemoveMember(r, actor, target).0)
  {
    var after := RemoveMember(r, actor, target).0;
    if after != r {
      var k := Find(r.members, target).value;
      assert forall j | 0 <= j < |after.members| :: after.members[j] == r.members[if j < k then j else j + 1];
      forall j | 0 <= j < |after.members|
        ensures after.members[j].unread == |UnreadAt(after.log, after.members[j].user)|
      {
        UnreadCountAfter(r.log, Gone(target, actor), after.members[j].user);
      }
    }
  }

  lemma SendKeepsInv(r: Room, sender: User, draft: Draft)
    requires RoomInv(r)
    ensures RoomInv(SendRoomText(r, sender, draft).0)
  {
    var after := SendRoomText(r, sender, draft).0;
    if SendRoomText(r, sender, draft).1.Ok? {
      forall k | 0 <= k < |after.members|
        ensures after.members[k].unread == |UnreadAt(after.log, after.members[k].user)|
      {
        UnreadCountAfter(r.log, Posted(sender), after.members[k].user);
      }
    }
  }

  lemma ReadKeepsInv(r: Room, reader: User)
    requires RoomInv(r)
    ensures RoomInv(MarkRoomRead(r, reader).0)
  {
    var after := MarkRoomRead(r, reader).0;
    if IsIn(r, reader) {
      forall k | 0 <= k < |after.members|
        ensures after.members[k].unread == |UnreadAt(after.log, after.members[k].user)|
      {
        UnreadCountAfter(r.log, RoomRead(reader), after.members[k].user);
      }
    }
  }

  lemma StepKeepsInv(r: Room, op: Op)
    requires RoomInv(r)
    ensures RoomInv(Apply(r, op))
  {
    match op
    case OpInvite(inviter, invitee) => if !IsIn(r, invitee) { AddKeepsInv(r, invitee, Member); }
    case OpRemove(actor, target) => RemoveKeepsInv(r, actor, target);
    case OpSend(sender, draft) => SendKeepsInv(r, sender, draft);
    case OpRead(reader) => ReadKeepsInv(r, reader);
  }

  lemma {:induction false} ExceptMembers(users: seq<User>, u: User)
    requires NoDup(users)
    ensures NoDup(Except(users, u)) && forall x :: x in Except(users, u) <==> x in users && x != u
  {
    if users != [] {
      var init, last := users[..|users| - 1], users[|users| - 1];
      assert users == init + [last];
      ExceptMembers(init, u);
      assert last !in init;
    }
  }

  lemma {:induction false} AddAllKeepsInv(r: Room, users: seq<User>)
    requires RoomInv(r) && NoDup(users) && forall u | u in users :: !IsIn(r, u)
    ensures RoomInv(AddAll(r, users)) && AddAll(r, users).creator == r.creator
    ensures forall u :: IsIn(AddAll(r, users), u) <==> IsIn(r, u) || u in users
    ensures forall u :: IsAdmin(AddAll(r, users), u) <==> IsAdmin(r, u)
  {
    if users != [] {
      var init, last := users[..|users| - 1], users[|users| - 1];
      assert users == init + [last];
      AddAllKeepsInv(r, init);
      assert last !in init && last in users;
      var mid := AddAll(r, init);
      AddKeepsInv(mid, last, Member);
      AddedIsIn(mid, last, Member);
    }
  }

  lemma AddedIsIn(r: Room, u: User, role: RoomRole)
    requires !IsIn(r, u)
    ensures forall v :: IsIn(Add(r, u, role), v) <==> IsIn(r, v) || v == u
    ensures forall v :: IsAdmin(Add(r, u, role), v) <==> IsAdmin(r, v) || (v == u && role == Admin)
  {
    var after := Add(r, u, role).members;
    assert after[..|after| - 1] == r.members;
  }

  /** A new room has the creator as its only admin and each other listed user as a member, once. */
  lemma CreateRoomIsExact(creator: User, users: seq<User>)
    ensures RoomInv(CreateRoom(creator, users)) && CreateRoom(creator, users).creator == creator
    ensures forall u :: IsIn(CreateRoom(creator, users), u) <==> u == creator || u in users
    ensures forall u :: IsAdmin(CreateRoom(creator, users), u) <==> u == creator
  {
    var empty := Room(creator, [], []);
    AddKeepsInv(empty, creator, Admin);
    AddedIsIn(empty, creator, Admin);
    DedupeIsDistinct(users);
    ExceptMembers(Dedupe(users), creator);
    AddAllKeepsInv(Add(empty, creator, Admin), Except(Dedupe(users), creator));
  }

  /** Only a member may invite. Somebody new comes in last, as a plain member with nothing to read, and everybody else
      stays as they were; inviting a member again changes nothing. */
  lemma InviteIsExact(r: Room, inviter: User, invitee: User)
    ensures var (after, result) := Invite(r, inviter, invitee);
            && (result.Ok? <==> IsIn(r, inviter)) && (result.Err? ==> result.error == NotARoomMember && after == r)
            && (result.Ok? && IsIn(r, invitee) ==> after == r)
            && (result.Ok? && !IsIn(r, invitee) ==>
                  && after.members == r.members + [Membership(invitee, Member, 0)]
                  && after == r.(members := after.members, log := r.log + [Joined(invitee)])
                  && forall u :: IsIn(after, u) <==> IsIn(r, u) || u == invitee)
  {
    if !IsIn(r, invitee) {
      AddedIsIn(r, invitee, Member);
    }
  }

  lemma RowIsFound(members: seq<Membership>, k: nat)
    requires OneRowEach(members) && k < |members|
    ensures Find(members, members[k].user) == Some(k)
  {
  }

  /** A target goes exactly when it is in the room and asks for it itself or an admin does. Then the target is no
      longer a member, and every other row stays, in its place in the order, with its role and its counter. */
  lemma RemoveMemberIsExact(r: Room, actor: User, target: User)
    requires OneRowEach(r.members)
    ensures var (after, result) := RemoveMember(r, actor, target);
            && (result.Ok? <==> IsIn(r, target) && (actor == target || IsAdmin(r, actor)))
            && (result.Err? ==> after == r)
            && (result == Err(PermissionDenied) <==> actor != target && IsIn(r, actor) && !IsAdmin(r, actor))
            && (result.Err? && result.error != PermissionDenied ==>
                  result.error == NotARoomMember && (!IsIn(r, actor) || !IsIn(r, target)))
            && (result.Ok? ==>
                  && (forall u :: IsIn(after, u) <==> IsIn(r, u) && u != target)
                  && (forall u | u != target :: IsAdmin(after, u) <==> IsAdmin(r, u))
                  && after == r.(members := after.members, log := r.log + [Gone(target, actor)])
                  && exists k | 0 <= k < |r.members| ::
                       && r.members[k].user == target && |after.members| == |r.members| - 1
                       && forall j | 0 <= j < |after.members| :: after.members[j] == r.members[if j < k then j else j + 1])
  {
    var (after, result) := RemoveMember(r, actor, target);
    if result.Ok? {
      var k := Find(r.members, target).value;
      assert forall j | 0 <= j < |after.members| :: after.members[j] == r.members[if j < k then j else j + 1];
      forall u
        ensures IsIn(after, u) <==> IsIn(r, u) && u != target
        ensures u != target ==> (IsAdmin(after, u) <==> IsAdmin(r, u))
      {
        RemovedIsOut(r, after, k, u);
      }
    }
  }

  lemma RemovedIsOut(r: Room, after: Room, k: nat, u: User)
    requires OneRowEach(r.members) && k < |r.members| && after.members == r.members[..k] + r.members[k + 1..]
    ensures IsIn(after, u) <==> IsIn(r, u) && u != r.members[k].user
    ensures u != r.members[k].user ==> (IsAdmin(after, u) <==> IsAdmin(r, u))
  {
    assert forall j | 0 <= j < |after.members| :: after.members[j] == r.members[if j < k then j else j + 1];
    var old_, new_ := Find(r.members, u), Find(after.members, u);
    if old_.Some? && old_.value != k {
      var j: nat := if old_.value < k then old_.value else old_.value - 1;
      assert after.members[j] == r.members[old_.value];
      RowIsFound(after.members, j);
    }
  }

  /** A post goes out exactly when its sender is a member and the body passes the checks of a text; it is one more
      unread message for every other member, and nothing else. */
  lemma SendRoomTextIsExact(r: Room, sender: User, draft: Draft)
    ensures var (after, result) := SendRoomText(r, sender, draft);
            && (result.Ok? <==> IsIn(r, sender) && DraftError(draft) == None)
            && (result == Err(NotARoomMember) <==> !IsIn(r, sender))
            && (result.Err? ==> after == r)
            && (result.Ok? ==>
                  && after == r.(members := after.members, log := r.log + [Posted(sender)])
                  && |after.members| == |r.members|
                  && forall k | 0 <= k < |r.members| ::
                       after.members[k] == Membership(r.members[k].user, r.members[k].role,
                                                      r.members[k].unread + if r.members[k].user == sender then 0 else 1))
  {
  }

  /** Reading the room works exactly for its members, and leaves the reader, and nobody else, with nothing to read. */
  lemma MarkRoomReadIsExact(r: Room, reader: User)
    ensures var (after, result) := MarkRoomRead(r, reader);
            && (result.Ok? <==> IsIn(r, reader)) && (result.Err? ==> result.error == NotARoomMember && after == r)
            && (result.Ok? ==>
                  && after == r.(members := after.members, log := r.log + [RoomRead(reader)])
                  && |after.members| == |r.members|
                  && forall k | 0 <= k < |r.members| ::
                       after.members[k] == Membership(r.members[k].user, r.members[k].role,
                                                      if r.members[k].user == reader then 0 else r.members[k].unread))
  {
  }

  lemma {:induction false} RoomInvAlways(creator: User, users: seq<User>, ops: seq<Op>)
    ensures RoomInv(Run(creator, users, ops)) && Run(creator, users, ops).creator == creator
  {
    if ops == [] {
      CreateRoomIsExact(creator, users);
    } else {
      RoomInvAlways(creator, users, ops[..|ops| - 1]);
      StepKeepsInv(Run(creator, users, ops[..|ops| - 1]), ops[|ops| - 1]);
    }
  }

  /** At every moment each current member's unread count is the number of messages others posted since the later
      of that member's current join and last read, through invites, repeat invites, removals and re-joins. */
  lemma RoomUnreadIsHistory(creator: User, users: seq<User>, ops: seq<Op>, k: nat)
    requires k < |Run(creator, users, ops).members|
    ensures var r := Run(creator, users, ops); r.members[k].unread == |UnreadAt(r.log, r.members[k].user)|
    ensures forall j | 0 <= j < |Run(creator, users, ops).members| && j != k ::
              Run(creator, users, ops).members[j].user != Run(creator, users, ops).members[k].user
  {
    RoomInvAlways(creator, users, ops);
  }

  /** Nobody but the creator is ever an admin. */
  lemma OnlyTheCreatorIsEverAdmin(creator: User, users: seq<User>, ops: seq<Op>, u: User)
    requires IsAdmin(Run(creator, users, ops), u)
    ensures u == creator
  {
    RoomInvAlways(creator, users, ops);
  }

  /** The history from r to t, with nobody removed by anyone else in between. */
  ghost predicate OnlyOwnDepartures(r: Room, t: Room) {
    && |r.log| <= |t.log| && t.log[..|r.log|] == r.log
    && forall i | |r.log| <= i < |t.log| && t.log[i].Gone? :: t.log[i].actor == t.log[i].user
  }

  lemma StepWithoutAdmin(r: Room, op: Op)
    requires NoAdmin(r)
    ensures NoAdmin(Apply(r, op)) && OnlyOwnDepartures(r, Apply(r, op))
  {
  }

  lemma OneMoreStepWithoutAdmin(r: Room, mid: Room, op: Op)
    requires NoAdmin(mid) && OnlyOwnDepartures(r, mid)
    ensures NoAdmin(Apply(mid, op)) && OnlyOwnDepartures(r, Apply(mid, op))
  {
    StepWithoutAdmin(mid, op);
  }

  /** Authority is lost for good: once no row is an admin's, even after the creator is invited back nobody is an
      admin again, and from then on every departure is the departing member's own. */
  lemma {:induction false} AuthorityNeverReturns(creator: User, users: seq<User>, before: seq<Op>, after: seq<Op>)
    requires NoAdmin(Run(creator, users, before))
    ensures NoAdmin(Run(creator, users, before + after))
    ensures OnlyOwnDepartures(Run(creator, users, before), Run(creator, users, before + after))
  {
    if after == [] {
      assert before + after == before;
    } else {
      var init, last := after[..|after| - 1], after[|after| - 1];
      AuthorityNeverReturns(creator, users, before, init);
      AppendInTwo(before, after);
      OneMoreStepWithoutAdmin(Run(creator, users, before), Run(creator, users, before + init), last);
    }
  }

  /** A room its creator has left has no admin. */
  lemma CreatorGoneMeansNoAdmin(creator: User, users: seq<User>, ops: seq<Op>)
    requires !IsIn(Run(creator, users, ops), creator)
    ensures NoAdmin(Run(creator, users, ops))
  {
    RoomInvAlways(creator, users, ops);
  }
}
