/** The two protocol pickers: the room selector and the one-to-one negotiation. */
module Protocols {
  import opened Common
  import opened Conversations

  datatype Protocol = E2eV1 | PlainText | Other(name: string)

  datatype UserRole = BotRole | HumanRole

  const PREFERENCE: seq<Protocol> := [E2eV1, PlainText]

  /** The instance as both pickers see it: its enabled protocols (never empty: an empty registry counts as
      plain only) and who has a device key. */
  datatype Instance = Instance(registered: set<Protocol>, keyed: set<User>)

  function Server(inst: Instance): set<Protocol> {
    if inst.registered == {} then {PlainText} else inst.registered
  }

  function KeepIn(ps: seq<Protocol>, allowed: set<Protocol>): seq<Protocol> {
    if ps == [] then [] else (if ps[0] in allowed then [ps[0]] else []) + KeepIn(ps[1..], allowed)
  }

  predicate AllMembersSupport(p: Protocol, keyed: set<User>, members: seq<User>) {
    p != E2eV1 || forall u | u in members :: u in keyed
  }

  function FirstSupported(candidates: seq<Protocol>, keyed: set<User>, members: seq<User>): Protocol {
    if candidates == [] then PlainText
    else if AllMembersSupport(candidates[0], keyed, members) then candidates[0]
    else FirstSupported(candidates[1..], keyed, members)
  }

  function SetOf(ps: seq<Protocol>): set<Protocol> {
    set p | p in ps
  }

  /** `RoomProtocolSelector.select`; an absent or empty list accepts everything. */
  function Select(inst: Instance, members: seq<User>, roles: map<User, UserRole>, accepted: Option<seq<Protocol>>): Protocol {
    if exists u :: u in members && u in roles && roles[u] == BotRole then PlainText
    else
      var enabled := KeepIn(PREFERENCE, Server(inst));
      var candidates :=
        if accepted.Some? && accepted.value != [] then KeepIn(enabled, SetOf(accepted.value)) else enabled;
      FirstSupported(candidates, inst.keyed, members)
  }

  datatype Refusal = NotEnabled | PeerHasNoKeys | NothingInCommon

  /** `_negotiate_protocol` */
  function Negotiate(inst: Instance, accepted: Option<seq<Protocol>>, peer: User): Result<Protocol, Refusal> {
    if accepted.None? then Ok(PlainText)
    else if accepted.value == [] then Err(NotEnabled)
    else if exists p :: p in accepted.value && p !in Server(inst) then Err(NotEnabled)
    else
      var usable := if peer in inst.keyed then Server(inst) else Server(inst) - {E2eV1};
      var common := KeepIn(PREFERENCE, SetOf(accepted.value) * usable);
      if common != [] then Ok(common[0])
      else if E2eV1 in accepted.value && peer !in inst.keyed then Err(PeerHasNoKeys)
      else Err(NothingInCommon)
  }

  predicate NoBot(members: seq<User>, roles: map<User, UserRole>) {
    forall u | u in members :: u in roles ==> roles[u] != BotRole
  }

  predicate AllKeyed(inst: Instance, members: seq<User>) {
    forall u | u in members :: u in inst.keyed
  }

  predicate E2eAllowed(inst: Instance, accepted: Option<seq<Protocol>>) {
    E2eV1 in Server(inst) && (accepted.None? || accepted.value == [] || E2eV1 in accepted.value)
  }

  lemma KeepPreference(allowed: set<Protocol>)
    ensures KeepIn(PREFERENCE, allowed) ==
            (if E2eV1 in allowed then [E2eV1] else []) + (if PlainText in allowed then [PlainText] else [])
  {
    assert PREFERENCE[1..] == [PlainText] && PREFERENCE[1..][1..] == [];
    assert KeepIn([PlainText], allowed) == if PlainText in allowed then [PlainText] else [];
  }

  lemma KeepTwice(ps: seq<Protocol>, a: set<Protocol>, b: set<Protocol>)
    ensures KeepIn(KeepIn(ps, a), b) == KeepIn(ps, a * b)
  {
    if ps != [] {
      KeepTwice(ps[1..], a, b);
      if ps[0] in a {
        assert KeepIn(ps, a)[1..] == KeepIn(ps[1..], a);
      } else {
        assert KeepIn(ps, a) == KeepIn(ps[1..], a);
      }
    }
  }

  lemma FirstOfPreferred(allowed: set<Protocol>, keyed: set<User>, members: seq<User>)
    ensures FirstSupported(KeepIn(PREFERENCE, allowed), keyed, members) ==
            if E2eV1 in allowed && AllMembersSupport(E2eV1, keyed, members) then E2eV1 else PlainText
  {
    KeepPreference(allowed);
    var candidates := KeepIn(PREFERENCE, allowed);
    if E2eV1 in allowed {
      assert candidates[1..] == if PlainText in allowed then [PlainText] else [];
    }
  }

  /** A room is end-to-end encrypted exactly when the instance and the caller allow it, nobody in it is a bot and
      everybody has a device key; in every other case it is plain. */
  lemma SelectIsExact(inst: Instance, members: seq<User>, roles: map<User, UserRole>, accepted: Option<seq<Protocol>>)
    ensures Select(inst, members, roles, accepted) == E2eV1 <==>
              NoBot(members, roles) && AllKeyed(inst, members) && E2eAllowed(inst, accepted)
    ensures Select(inst, members, roles, accepted) == E2eV1 || Select(inst, members, roles, accepted) == PlainText
  {
    FirstOfPreferred(Server(inst), inst.keyed, members);
    if accepted.Some? && accepted.value != [] {
      KeepTwice(PREFERENCE, Server(inst), SetOf(accepted.value));
      FirstOfPreferred(Server(inst) * SetOf(accepted.value), inst.keyed, members);
    }
  }

  /** The outcome depends on who is in the room, not on the order or the repetitions of the list. */
  lemma SelectIgnoresOrder(inst: Instance, a: seq<User>, b: seq<User>, roles: map<User, UserRole>,
                           accepted: Option<seq<Protocol>>)
    requires forall u :: u in a <==> u in b
    ensures Select(inst, a, roles, accepted) == Select(inst, b, roles, accepted)
  {
    SelectIsExact(inst, a, roles, accepted);
    SelectIsExact(inst, b, roles, accepted);
  }

  /** More members can only take encryption away. */
  lemma MoreMembersOnlyDowngrade(inst: Instance, a: seq<User>, b: seq<User>, roles: map<User, UserRole>,
                                 accepted: Option<seq<Protocol>>)
    requires forall u :: u in a ==> u in b
    ensures Select(inst, b, roles, accepted) == E2eV1 ==> Select(inst, a, roles, accepted) == E2eV1
  {
    SelectIsExact(inst, a, roles, accepted);
    SelectIsExact(inst, b, roles, accepted);
  }

  /** What the one-to-one negotiation answers, in full. */
  lemma NegotiateIsExact(inst: Instance, accepted: seq<Protocol>, peer: User)
    ensures Negotiate(inst, Some(accepted), peer) == Ok(E2eV1) <==>
              E2eV1 in accepted && peer in inst.keyed && forall p | p in accepted :: p in Server(inst)
    ensures Negotiate(inst, Some(accepted), peer) == Ok(PlainText) <==>
              PlainText in accepted && !(E2eV1 in accepted && peer in inst.keyed) &&
              forall p | p in accepted :: p in Server(inst)
    ensures forall p :: Negotiate(inst, Some(accepted), peer) == Ok(p) ==> p == E2eV1 || p == PlainText
  {
    var usable := if peer in inst.keyed then Server(inst) else Server(inst) - {E2eV1};
    KeepPreference(SetOf(accepted) * usable);
  }

  /** And what it refuses, and as what: an absent list stands for plain, so it never is. */
  lemma RefusalsAreExact(inst: Instance, accepted: Option<seq<Protocol>>, peer: User)
    ensures var r := Negotiate(inst, accepted, peer);
            var enabled := accepted.Some? && accepted.value != [] && forall p | p in accepted.value :: p in Server(inst);
            && (accepted.None? ==> r == Ok(PlainText))
            && (r == Err(NotEnabled) <==> accepted.Some? && !enabled)
            && (r == Err(PeerHasNoKeys) <==>
                  enabled && PlainText !in accepted.value && E2eV1 in accepted.value && peer !in inst.keyed)
            && (r == Err(NothingInCommon) <==> enabled && PlainText !in accepted.value && E2eV1 !in accepted.value)
  {
    if accepted.Some? {
      NegotiateIsExact(inst, accepted.value, peer);
    }
  }

  /** An empty registry counts as one that knows plain only: rooms are plain, and so is all that can be negotiated. */
  lemma EmptyRegistryMeansPlain(inst: Instance, members: seq<User>, roles: map<User, UserRole>,
                                accepted: Option<seq<Protocol>>, peer: User)
    requires inst.registered == {}
    ensures Select(inst, members, roles, accepted) == PlainText
    ensures Negotiate(inst, accepted, peer) ==
              if accepted.None? || (accepted.value != [] && forall p | p in accepted.value :: p == PlainText) then Ok(PlainText)
              else Err(NotEnabled)
  {
    SelectIsExact(inst, members, roles, accepted);
    RefusalsAreExact(inst, accepted, peer);
    if accepted.Some? && accepted.value != [] {
      assert accepted.value[0] in accepted.value;
      NegotiateIsExact(inst, accepted.value, peer);
    }
  }

  /** In a two-person room of non-bots the two pickers agree, whenever the negotiation succeeds, exactly when it is
      not the case that encryption is wanted and one of them looks at less than the other: the negotiation never
      asks for the caller's own key, and takes an absent list for plain where the selector takes it for anything. */
  lemma PickersAgreeExactly(inst: Instance, creator: User, peer: User, roles: map<User, UserRole>,
                            accepted: Option<seq<Protocol>>)
    requires NoBot([creator, peer], roles) && Negotiate(inst, accepted, peer).Ok?
    ensures Select(inst, [creator, peer], roles, accepted) == Negotiate(inst, accepted, peer).value <==>
              if accepted.None? then E2eV1 !in Server(inst) || creator !in inst.keyed || peer !in inst.keyed
              else E2eV1 !in accepted.value || peer !in inst.keyed || creator in inst.keyed
  {
    var members := [creator, peer];
    assert creator in members && peer in members && forall u | u in members :: u == creator || u == peer;
    SelectIsExact(inst, members, roles, accepted);
    if accepted.Some? {
      NegotiateIsExact(inst, accepted.value, peer);
    }
  }

  /** A creator without a key and a peer with one: the negotiation promises encryption, the selector picks plain. */
  lemma PickersCanDisagree(creator: User, peer: User)
    requires creator != peer
    ensures var inst, accepted := Instance({E2eV1, PlainText}, {peer}), Some([E2eV1, PlainText]);
            && NoBot([creator, peer], map[])
            && Negotiate(inst, accepted, peer) == Ok(E2eV1)
            && Select(inst, [creator, peer], map[], accepted) == PlainText
  {
    var inst, accepted := Instance({E2eV1, PlainText}, {peer}), [E2eV1, PlainText];
    assert E2eV1 in accepted;
    NegotiateIsExact(inst, accepted, peer);
    SelectIsExact(inst, [creator, peer], map[], Some(accepted));
    assert creator in [creator, peer] && creator !in inst.keyed;
  }

  /** In particular they agree for a creator with a key and a caller who listed what they accept. */
  lemma PickersAgreeForKeyedCreator(inst: Instance, creator: User, peer: User, roles: map<User, UserRole>,
                                    accepted: seq<Protocol>)
    requires NoBot([creator, peer], roles) && creator in inst.keyed
    requires Negotiate(inst, Some(accepted), peer).Ok?
    ensures Select(inst, [creator, peer], roles, Some(accepted)) == Negotiate(inst, Some(accepted), peer).value
  {
    PickersAgreeExactly(inst, creator, peer, roles, Some(accepted));
  }
}
