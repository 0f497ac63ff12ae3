/**
 * The socket server of the chat: the registry of live rooms, the state of
 * each authenticated connection, and the handlers of the events a client
 * sends. Every emission is appended to `log` as a target and an event; the
 * transport that delivers them is not modelled.
 */
module ChatServer {
  import opened Wrappers
  import opened Text
  import opened Handle
  import opened Mention
  import opened ImagePayload
  import opened Rooms

  const Unauthorized: string := "Unauthorized."
  const AlreadyInRoom: string := "User is already in a room."
  const NoSuchRoom: string := "Room does not exist."
  const JoinARoom: string := "Join a room."

  /** Who receives an emission: one connection, every member of a room, every
      member but one, or every connection. */
  datatype Target =
    | ToSocket(id: SocketId)
    | ToRoom(code: Code)
    | ToRoomExcept(room: Code, except: SocketId)
    | ToEveryone

  /** `${socket.id}-${Date.now()}` or `ai-${Date.now()}`. */
  datatype MessageId = FromSocket(sender: SocketId, stamp: int) | FromAI(aiStamp: int)

  datatype Body = TextBody(message: string) | ImageBody(imageData: string)

  datatype ChatMessage = ChatMessage(
    id: MessageId,
    username: string,
    profilePic: Option<string>,
    body: Body,
    at: int)

  /** The events the server emits, by their socket.io names. */
  datatype Event =
    | RoomError(error: string)
    | RoomCreated(created: Code)
    | RoomJoined(joined: Code)
    | RoomLeft(left: Code)
    | UserJoined(joiner: UserInfo)
    | UserLeft(leaver: UserInfo)
    | RoomUserList(roster: seq<UserInfo>)
    | RoomUserCount(count: nat)
    | NewMessage(msg: ChatMessage)
    | RoomsList(listing: seq<PublicRoom>)

  datatype Emission = Emission(to: Target, event: Event)

  /** What a connection authenticated as: the user's name and picture. */
  datatype Identity = Identity(name: string, picture: Option<string>)

  /** The argument of `send_message`: a bare string, or an object whose
      absent or null fields are `None`. */
  datatype Payload =
    | Plain(s: string)
    | Fields(kind: Option<string>, text: Option<string>, message: Option<string>,
             data: Option<string>, image: Option<string>)

  /** The model call that follows a message mentioning the AI: who asked, in
      which room, under which name, and the prompt. */
  datatype AiRequest = AiRequest(sender: SocketId, room: Code, username: string, prompt: string)

  /** `type === 'image'`. */
  predicate IsImagePayload(m: Payload) {
    m.Fields? && m.kind == Some("image")
  }

  /** `raw?.data || raw?.image || ''`: the first non-empty of the two. */
  function ImageDataOf(m: Payload): string {
    if m.Plain? then ""
    else if m.data.Some? && m.data.value != "" then m.data.value
    else if m.image.Some? && m.image.value != "" then m.image.value
    else ""
  }

  /** `raw?.text ?? raw?.message ?? ''`: the first present of the two. */
  function TextOf(m: Payload): string {
    if m.Plain? then m.s
    else if m.text.Some? then m.text.value
    else if m.message.Some? then m.message.value
    else ""
  }

  function Info(id: SocketId, s: Session): UserInfo {
    UserInfo(id, s.username, s.profilePic)
  }

  /** `emitRoomUsers`: the roster, then its length, to the room. */
  function RosterEmissions(code: Code, users: seq<SocketId>, sessions: map<SocketId, Session>): seq<Emission> {
    var roster := RoomUsers(users, sessions);
    [Emission(ToRoom(code), RoomUserList(roster)), Emission(ToRoom(code), RoomUserCount(|roster|))]
  }

  /** The registry and the connections agree: every live room has a room
      code as key and at least one member, listed once; every member is a
      named connection that holds that room and its visibility; and every
      connection that holds a room is a member of it. */
  ghost predicate Consistent(rooms: map<Code, Room>, sessions: map<SocketId, Session>) {
    && RoomsWellFormed(rooms)
    && MembersHoldRoom(rooms, sessions)
    && HoldersAreMembers(rooms, sessions)
    && (forall id | id in sessions && sessions[id].roomCode.None? :: sessions[id].roomVisibility.None?)
  }

  ghost predicate RoomsWellFormed(rooms: map<Code, Room>) {
    forall c | c in rooms :: IsRoomCode(c) && rooms[c].users != [] && Distinct(rooms[c].users)
  }

  ghost predicate MembersHoldRoom(rooms: map<Code, Room>, sessions: map<SocketId, Session>) {
    forall c, id | c in rooms && id in rooms[c].users ::
      && id in sessions && sessions[id].username != ""
      && sessions[id].roomCode == Some(c)
      && sessions[id].roomVisibility == Some(rooms[c].visibility)
  }

  ghost predicate HoldersAreMembers(rooms: map<Code, Room>, sessions: map<SocketId, Session>) {
    forall id | id in sessions && sessions[id].roomCode.Some? ::
      sessions[id].roomCode.value in rooms && id in rooms[sessions[id].roomCode.value].users
  }

  /** In a consistent state `room_user_count` is the size of the member set,
      and the roster names the members in the order they came in. */
  lemma RosterListsMembers(rooms: map<Code, Room>, sessions: map<SocketId, Session>, c: Code)
    requires Consistent(rooms, sessions) && c in rooms
    ensures |RoomUsers(rooms[c].users, sessions)| == |rooms[c].users| > 0
    ensures forall i :: 0 <= i < |rooms[c].users| ==>
              RoomUsers(rooms[c].users, sessions)[i] == Info(rooms[c].users[i], sessions[rooms[c].users[i]])
  {
    RoomUsersComplete(rooms[c].users, sessions);
  }

  /** A connection is a member of at most one room. */
  lemma MemberOfOneRoom(rooms: map<Code, Room>, sessions: map<SocketId, Session>, id: SocketId, c: Code, d: Code)
    requires Consistent(rooms, sessions)
    requires c in rooms && d in rooms && id in rooms[c].users && id in rooms[d].users
    ensures c == d
  {
    assert sessions[id].roomCode == Some(c) && sessions[id].roomCode == Some(d);
  }

  /** A connection that holds no room is a member of none, so making it the
      sole member of a new room keeps the state consistent. */
  lemma CreateKeepsConsistent(rooms: map<Code, Room>, sessions: map<SocketId, Session>,
                              id: SocketId, code: Code, room: Room)
    requires Consistent(rooms, sessions)
    requires id in sessions && sessions[id].roomCode.None? && sessions[id].username != ""
    requires code !in rooms && IsRoomCode(code) && room.users == [id]
    ensures Consistent(rooms[code := room],
                       sessions[id := sessions[id].(roomCode := Some(code), roomVisibility := Some(room.visibility))])
  {
  }

  /** A connection that holds no room is not yet a member of `code`, so
      appending it to the members keeps the state consistent. */
  lemma JoinKeepsConsistent(rooms: map<Code, Room>, sessions: map<SocketId, Session>,
                            id: SocketId, code: Code)
    requires Consistent(rooms, sessions)
    requires id in sessions && sessions[id].roomCode.None? && sessions[id].username != ""
    requires code in rooms
    ensures id !in rooms[code].users
    ensures Consistent(rooms[code := rooms[code].(users := rooms[code].users + [id])],
                       sessions[id := sessions[id].(roomCode := Some(code),
                                                    roomVisibility := Some(rooms[code].visibility))])
  {
    var users := rooms[code].users;
    forall x | x in users
      ensures x != id
    {
      assert sessions[x].roomCode == Some(code);
    }
    var r := rooms[code := rooms[code].(users := users + [id])];
    var ss := sessions[id := sessions[id].(roomCode := Some(code),
                                           roomVisibility := Some(rooms[code].visibility))];
    assert RoomsWellFormed(r) by {
      assert Distinct(users + [id]);
    }
    forall c | c in rooms
      ensures id !in rooms[c].users
    {
    }
    forall c, x | c in r && x in r[c].users
      ensures x in ss && ss[x].username != "" && ss[x].roomCode == Some(c)
              && ss[x].roomVisibility == Some(r[c].visibility)
    {
      if x != id {
        assert x in rooms[c].users;
        assert ss[x] == sessions[x];
      }
    }
    forall x | x in ss && ss[x].roomCode.Some?
      ensures ss[x].roomCode.value in r && x in r[ss[x].roomCode.value].users
    {
      if x != id {
        assert ss[x] == sessions[x];
      }
    }
  }

  /** `users.delete(socket.id)` on room `code`, then `delete rooms[code]`
      when no member is left. */
  function RemoveMember(rooms: map<Code, Room>, code: Code, id: SocketId): (r: map<Code, Room>)
    requires code in rooms
    ensures forall d :: d != code ==> (d in r <==> d in rooms)
    ensures forall d :: d != code && d in r ==> r[d] == rooms[d]
    ensures code in r <==> Without(rooms[code].users, id) != []
    ensures code in r ==> r[code] == rooms[code].(users := Without(rooms[code].users, id))
  {
    var users := Without(rooms[code].users, id);
    if users == [] then rooms - {code} else rooms[code := rooms[code].(users := users)]
  }

  /** What the room and everyone are told once `id`, with state `s`, has
      left room `c` and `rooms`/`sessions` are the new state: when the room
      is gone only the public listing is refreshed; otherwise the others in
      the room hear `user_left`, the room gets its new roster, then the
      listing is refreshed. */
  function Departure(c: Code, id: SocketId, s: Session,
                     rooms: map<Code, Room>, sessions: map<SocketId, Session>): seq<Emission>
  {
    if c !in rooms then [Emission(ToEveryone, RoomsList(ListPublicRooms(rooms)))]
    else [Emission(ToRoomExcept(c, id), UserLeft(Info(id, s)))]
         + RosterEmissions(c, rooms[c].users, sessions)
         + [Emission(ToEveryone, RoomsList(ListPublicRooms(rooms)))]
  }

  /** Removing a connection from the room it holds, and clearing the room
      from its state, keeps the state consistent; in particular no room is
      left without members. */
  lemma LeaveKeepsConsistent(rooms: map<Code, Room>, sessions: map<SocketId, Session>,
                             id: SocketId, code: Code)
    requires Consistent(rooms, sessions)
    requires id in sessions && sessions[id].roomCode == Some(code)
    ensures Consistent(RemoveMember(rooms, code, id),
                       sessions[id := sessions[id].(roomCode := None, roomVisibility := None)])
  {
    var ss := sessions[id := sessions[id].(roomCode := None, roomVisibility := None)];
    RemovedRoomsWellFormed(rooms, sessions, id, code);
    RemovedMembersHoldRoom(rooms, sessions, id, code, ss);
    RemovedHoldersAreMembers(rooms, sessions, id, code, ss);
  }

  /** The same when the connection is gone altogether. */
  lemma DisconnectKeepsConsistent(rooms: map<Code, Room>, sessions: map<SocketId, Session>,
                                  id: SocketId, code: Code)
    requires Consistent(rooms, sessions)
    requires id in sessions && sessions[id].roomCode == Some(code)
    ensures Consistent(RemoveMember(rooms, code, id), sessions - {id})
  {
    var ss := sessions - {id};
    RemovedRoomsWellFormed(rooms, sessions, id, code);
    RemovedMembersHoldRoom(rooms, sessions, id, code, ss);
    RemovedHoldersAreMembers(rooms, sessions, id, code, ss);
  }

  /** A connection that holds no room is a member of none, so dropping it
      keeps the state consistent. */
  lemma IdleDisconnectKeepsConsistent(rooms: map<Code, Room>, sessions: map<SocketId, Session>, id: SocketId)
    requires Consistent(rooms, sessions)
    requires id in sessions && (sessions[id].roomCode.None? || sessions[id].roomCode.value !in rooms)
    ensures Consistent(rooms, sessions - {id})
  {
    forall c, x | c in rooms && x in rooms[c].users
      ensures x != id
    {
      assert sessions[x].roomCode == Some(c);
    }
  }

  /** `ss` agrees with `sessions` except that `id` holds no room or is gone. */
  ghost predicate ReleasedOnly(sessions: map<SocketId, Session>, ss: map<SocketId, Session>, id: SocketId) {
    && (forall x | x in ss :: x in sessions)
    && (forall x | x in sessions && x != id :: x in ss && ss[x] == sessions[x])
    && (id in ss ==> ss[id].roomCode.None? && ss[id].roomVisibility.None?)
  }

  lemma RemovedMembersHoldRoom(rooms: map<Code, Room>, sessions: map<SocketId, Session>,
                               id: SocketId, code: Code, ss: map<SocketId, Session>)
    requires MembersHoldRoom(rooms, sessions) && code in rooms
    requires id in sessions && sessions[id].roomCode == Some(code)
    requires ReleasedOnly(sessions, ss, id)
    ensures MembersHoldRoom(RemoveMember(rooms, code, id), ss)
  {
    var r := RemoveMember(rooms, code, id);
    forall c, x | c in r && x in r[c].users
      ensures x in ss && ss[x].username != "" && ss[x].roomCode == Some(c)
              && ss[x].roomVisibility == Some(r[c].visibility)
    {
      RemovedMemberIsOld(rooms, sessions, id, code, c, x);
      var old_s := sessions[x];
      assert ss[x] == old_s;
      assert old_s.username != "" && old_s.roomCode == Some(c) && old_s.roomVisibility == Some(rooms[c].visibility);
    }
  }

  lemma RemovedHoldersAreMembers(rooms: map<Code, Room>, sessions: map<SocketId, Session>,
                                 id: SocketId, code: Code, ss: map<SocketId, Session>)
    requires HoldersAreMembers(rooms, sessions) && code in rooms
    requires forall x | x in sessions && sessions[x].roomCode.None? :: sessions[x].roomVisibility.None?
    requires id in sessions && sessions[id].roomCode == Some(code)
    requires ReleasedOnly(sessions, ss, id)
    ensures HoldersAreMembers(RemoveMember(rooms, code, id), ss)
    ensures forall x | x in ss && ss[x].roomCode.None? :: ss[x].roomVisibility.None?
  {
    var r := RemoveMember(rooms, code, id);
    forall x | x in ss && ss[x].roomCode.Some?
      ensures ss[x].roomCode.value in r && x in r[ss[x].roomCode.value].users
    {
      StayingHolderIsMember(rooms, sessions, id, code, x);
    }
  }

  lemma RemovedRoomsWellFormed(rooms: map<Code, Room>, sessions: map<SocketId, Session>,
                               id: SocketId, code: Code)
    requires RoomsWellFormed(rooms) && code in rooms
    ensures RoomsWellFormed(RemoveMember(rooms, code, id))
  {
  }

  /** A member after the removal is a member from before, other than `id`. */
  lemma RemovedMemberIsOld(rooms: map<Code, Room>, sessions: map<SocketId, Session>,
                           id: SocketId, code: Code, c: Code, x: SocketId)
    requires MembersHoldRoom(rooms, sessions)
    requires id in sessions && sessions[id].roomCode == Some(code) && code in rooms
    requires c in RemoveMember(rooms, code, id) && x in RemoveMember(rooms, code, id)[c].users
    ensures c in rooms && x in rooms[c].users && x != id
    ensures RemoveMember(rooms, code, id)[c].visibility == rooms[c].visibility
  {
    if c == code {
      assert x in Without(rooms[code].users, id);
    } else {
      assert sessions[x].roomCode == Some(c);
    }
  }

  /** A connection other than `id` that holds a room is still a member of it. */
  lemma StayingHolderIsMember(rooms: map<Code, Room>, sessions: map<SocketId, Session>,
                              id: SocketId, code: Code, x: SocketId)
    requires HoldersAreMembers(rooms, sessions) && code in rooms
    requires x in sessions && x != id && sessions[x].roomCode.Some?
    ensures var c := sessions[x].roomCode.value;
            c in RemoveMember(rooms, code, id) && x in RemoveMember(rooms, code, id)[c].users
  {
    var c := sessions[x].roomCode.value;
    if c == code {
      assert x in Without(rooms[code].users, id);
    }
  }

  class Server {
    /** `rooms`, keyed by room code. */
    var rooms: map<Code, Room>
    /** `socket.data` of every live, authenticated connection. */
    var sessions: map<SocketId, Session>
    /** Everything emitted so far, oldest first. */
    var log: seq<Emission>

    ghost predicate Valid()
      reads this`rooms, this`sessions
    {
      Consistent(rooms, sessions)
    }

    constructor ()
      ensures Valid()
      ensures rooms == map[] && sessions == map[] && log == []
    {
      rooms, sessions, log := map[], map[], [];
    }

    /** The `connection` handler once authentication has been decided: a
        connection without an identity gets 'Unauthorized.' and is dropped;
        one with an identity starts with no room. */
    method Connect(id: SocketId, identity: Option<Identity>)
      requires Valid() && id !in sessions
      modifies this
      ensures Valid() && rooms == old(rooms)
      ensures identity.None? ==>
                sessions == old(sessions)
                && log == old(log) + [Emission(ToSocket(id), RoomError(Unauthorized))]
      ensures identity.Some? ==>
                sessions == old(sessions)[id := Session(identity.value.name, identity.value.picture, None, None)]
                && log == old(log)
    {
      match identity
      case None =>
        log := log + [Emission(ToSocket(id), RoomError(Unauthorized))];
      case Some(who) =>
        sessions := sessions[id := Session(who.name, who.picture, None, None)];
    }

    /** `create_room`. `requested` is the payload's `visibility`, `draws` the
        random stream `genCode` reads and `now` the clock. */
    method CreateRoom(id: SocketId, requested: Option<string>, draws: seq<nat>, now: int)
      returns (created: Option<Code>)
      requires Valid() && id in sessions
      requires forall i :: 0 <= i < |draws| ==> IsDraw(draws[i])
      requires sessions[id].username != "" && sessions[id].roomCode.None? ==> HasFreeDraw(rooms, draws)
      modifies this
      ensures Valid()
      ensures var s := old(sessions[id]);
              s.username == "" ==>
                created.None? && rooms == old(rooms) && sessions == old(sessions)
                && log == old(log) + [Emission(ToSocket(id), RoomError(Unauthorized))]
      ensures var s := old(sessions[id]);
              s.username != "" && s.roomCode.Some? ==>
                created.None? && rooms == old(rooms) && sessions == old(sessions)
                && log == old(log) + [Emission(ToSocket(id), RoomError(AlreadyInRoom))]
      ensures var s := old(sessions[id]);
              s.username != "" && s.roomCode.None? ==>
                && created.Some?
                && var c := created.value;
                   var vis := if requested == Some("private") then Private else Public;
                   && c !in old(rooms) && IsRoomCode(c)
                   && rooms == old(rooms)[c := Room([id], vis, now)]
                   && sessions == old(sessions)[id := s.(roomCode := Some(c), roomVisibility := Some(vis))]
                   && log == old(log)
                             + [Emission(ToSocket(id), RoomCreated(c)),
                                Emission(ToRoom(c), UserJoined(Info(id, s)))]
                             + RosterEmissions(c, [id], sessions)
                             + [Emission(ToEveryone, RoomsList(ListPublicRooms(rooms)))]
    {
      var s := sessions[id];
      if s.username == "" {
        log := log + [Emission(ToSocket(id), RoomError(Unauthorized))];
        return None;
      }
      if s.roomCode.Some? {
        log := log + [Emission(ToSocket(id), RoomError(AlreadyInRoom))];
        return None;
      }
      var vis := if requested == Some("private") then Private else Public;
      var code, _ := GenUniqueCode(rooms, draws);
      CreateKeepsConsistent(rooms, sessions, id, code, Room([id], vis, now));
      rooms := rooms[code := Room([id], vis, now)];
      sessions := sessions[id := s.(roomCode := Some(code), roomVisibility := Some(vis))];
      log := log
             + [Emission(ToSocket(id), RoomCreated(code)),
                Emission(ToRoom(code), UserJoined(Info(id, s)))]
             + RosterEmissions(code, [id], sessions)
             + [Emission(ToEveryone, RoomsList(ListPublicRooms(rooms)))];
      created := Some(code);
    }
  
    /** `join_room`. `code` is the payload after `String(code || '')`. */
    method JoinRoom(id: SocketId, code: string)
      requires Valid() && id in sessions
      modifies this
      ensures Valid()
      ensures var s := old(sessions[id]);
              s.username == "" ==>
                rooms == old(rooms) && sessions == old(sessions)
                && log == old(log) + [Emission(ToSocket(id), RoomError(Unauthorized))]
      ensures var s := old(sessions[id]);
              s.username != "" && s.roomCode.Some? ==>
                rooms == old(rooms) && sessions == old(sessions)
                && log == old(log) + [Emission(ToSocket(id), RoomError(AlreadyInRoom))]
      ensures var s := old(sessions[id]);
              s.username != "" && s.roomCode.None? && Trim(code) !in old(rooms) ==>
                rooms == old(rooms) && sessions == old(sessions)
                && log == old(log) + [Emission(ToSocket(id), RoomError(NoSuchRoom))]
      ensures var s := old(sessions[id]);
              var c := Trim(code);
              s.username != "" && s.roomCode.None? && c in old(rooms) ==>
                && var room := old(rooms[c]);
                   && id !in room.users
                   && rooms == old(rooms)[c := room.(users := room.users + [id])]
                   && sessions == old(sessions)[id := s.(roomCode := Some(c), roomVisibility := Some(room.visibility))]
                   && log == old(log)
                             + [Emission(ToSocket(id), RoomJoined(c)),
                                Emission(ToRoom(c), UserJoined(Info(id, s)))]
                             + RosterEmissions(c, rooms[c].users, sessions)
                             + [Emission(ToEveryone, RoomsList(ListPublicRooms(rooms)))]
    {
      var s := sessions[id];
      if s.username == "" {
        log := log + [Emission(ToSocket(id), RoomError(Unauthorized))];
        return;
      }
      if s.roomCode.Some? {
        log := log + [Emission(ToSocket(id), RoomError(AlreadyInRoom))];
        return;
      }
      var c := Trim(code);
      if c !in rooms {
        log := log + [Emission(ToSocket(id), RoomError(NoSuchRoom))];
        return;
      }
      var room := rooms[c];
      JoinKeepsConsistent(rooms, sessions, id, c);
      rooms := rooms[c := room.(users := room.users + [id])];
      sessions := sessions[id := s.(roomCode := Some(c), roomVisibility := Some(room.visibility))];
      log := log
             + [Emission(ToSocket(id), RoomJoined(c)),
                Emission(ToRoom(c), UserJoined(Info(id, s)))]
             + RosterEmissions(c, rooms[c].users, sessions)
             + [Emission(ToEveryone, RoomsList(ListPublicRooms(rooms)))];
    }

    /** `send_message` up to the model call: checks, then at most one
        broadcast; returns the model request when the text mentions the AI. */
    method SendMessage(id: SocketId, m: Payload, now: int) returns (ai: Option<AiRequest>)
      requires id in sessions
      modifies this`log
      ensures rooms == old(rooms) && sessions == old(sessions)
      ensures var s := sessions[id];
              s.username == "" ==>
                ai.None? && log == old(log) + [Emission(ToSocket(id), RoomError(Unauthorized))]
      ensures var s := sessions[id];
              s.username != "" && (s.roomCode.None? || s.roomCode.value !in rooms) ==>
                ai.None? && log == old(log) + [Emission(ToSocket(id), RoomError(JoinARoom))]
      ensures var s := sessions[id];
              s.username != "" && s.roomCode.Some? && s.roomCode.value in rooms && IsImagePayload(m) ==>
                var checked := CheckImage(ImageDataOf(m));
                && ai.None?
                && (checked.Err? ==> log == old(log) + [Emission(ToSocket(id), RoomError(checked.error))])
                && (checked.Ok? ==>
                      log == old(log) + [Emission(ToRoom(s.roomCode.value), NewMessage(
                        ChatMessage(FromSocket(id, now), s.username, s.profilePic, ImageBody(checked.value), now)))])
      ensures var s := sessions[id];
              var t := Trim(TextOf(m));
              s.username != "" && s.roomCode.Some? && s.roomCode.value in rooms && !IsImagePayload(m) ==>
                && (t == "" ==> ai.None? && log == old(log))
                && (t != "" ==>
                      && log == old(log) + [Emission(ToRoom(s.roomCode.value), NewMessage(
                           ChatMessage(FromSocket(id, now), s.username, s.profilePic, TextBody(t), now)))]
                      && (ai.Some? <==> MentionsAI(t))
                      && (ai.Some? ==> ai.value == AiRequest(id, s.roomCode.value, s.username,
                                                             AiPrompt(s.username, t))))
    {
      ai := None;
      var s := sessions[id];
      if s.username == "" {
        log := log + [Emission(ToSocket(id), RoomError(Unauthorized))];
        return;
      }
      if s.roomCode.None? || s.roomCode.value !in rooms {
        log := log + [Emission(ToSocket(id), RoomError(JoinARoom))];
        return;
      }
      var c := s.roomCode.value;
      if IsImagePayload(m) {
        RelayImage(id, c, s, m, now);
      } else {
        ai := RelayText(id, c, s, m, now);
      }
    }

    /** The image branch of `send_message`, for sender `id` with state `s`
        in room `c`. */
    method RelayImage(id: SocketId, c: Code, s: Session, m: Payload, now: int)
      modifies this`log
      ensures var checked := CheckImage(ImageDataOf(m));
              && (checked.Err? ==> log == old(log) + [Emission(ToSocket(id), RoomError(checked.error))])
              && (checked.Ok? ==>
                    log == old(log) + [Emission(ToRoom(c), NewMessage(
                      ChatMessage(FromSocket(id, now), s.username, s.profilePic, ImageBody(checked.value), now)))])
    {
      var checked := CheckImage(ImageDataOf(m));
      if checked.Err? {
        log := log + [Emission(ToSocket(id), RoomError(checked.error))];
      } else {
        log := log + [Emission(ToRoom(c), NewMessage(
                 ChatMessage(FromSocket(id, now), s.username, s.profilePic, ImageBody(checked.value), now)))];
      }
    }

    /** The text branch of `send_message`. */
    method RelayText(id: SocketId, c: Code, s: Session, m: Payload, now: int) returns (ai: Option<AiRequest>)
      modifies this`log
      ensures var t := Trim(TextOf(m));
              && (t == "" ==> ai.None? && log == old(log))
              && (t != "" ==>
                    && log == old(log) + [Emission(ToRoom(c), NewMessage(
                         ChatMessage(FromSocket(id, now), s.username, s.profilePic, TextBody(t), now)))]
                    && (ai.Some? <==> MentionsAI(t))
                    && (ai.Some? ==> ai.value == AiRequest(id, c, s.username, AiPrompt(s.username, t))))
    {
      ai := None;
      var t := Trim(TextOf(m));
      if t == "" {
        return;
      }
      log := log + [Emission(ToRoom(c), NewMessage(
               ChatMessage(FromSocket(id, now), s.username, s.profilePic, TextBody(t), now)))];
      if MentionsAI(t) {
        ai := Some(AiRequest(id, c, s.username, AiPrompt(s.username, t)));
      }
    }

    /** The rest of `send_message` once the model has answered (`reply`, or
        `None` when there is no key, no text or an error): the answer is
        broadcast in the room by the AI, addressed to the sender, or the
        sender alone is told the AI is unavailable. */
    method DeliverAiReply(req: AiRequest, reply: Option<string>, now: int)
      modifies this`log
      ensures rooms == old(rooms) && sessions == old(sessions)
      ensures var out := AiFollowUp(req.username, reply);
              && (out.Broadcast? ==>
                    log == old(log) + [Emission(ToRoom(req.room), NewMessage(
                             ChatMessage(FromAI(now), AiName, None, TextBody(out.text), now)))])
              && (out.Unavailable? ==>
                    log == old(log) + [Emission(ToSocket(req.sender), RoomError(out.error))])
    {
      var out := AiFollowUp(req.username, reply);
      if out.Broadcast? {
        log := log + [Emission(ToRoom(req.room), NewMessage(
                 ChatMessage(FromAI(now), AiName, None, TextBody(out.text), now)))];
      } else {
        log := log + [Emission(ToSocket(req.sender), RoomError(out.error))];
      }
    }

    /** `leave_room`; `ok` is what the acknowledgement callback, when there
        is one, is called with. */
    method LeaveRoom(id: SocketId) returns (ok: bool)
      requires Valid() && id in sessions
      modifies this
      ensures Valid()
      ensures var s := old(sessions[id]);
              s.roomCode.None? || s.roomCode.value !in old(rooms) ==>
                !ok && rooms == old(rooms) && sessions == old(sessions) && log == old(log)
      ensures var s := old(sessions[id]);
              s.roomCode.Some? && s.roomCode.value in old(rooms) ==>
                && var c := s.roomCode.value;
                   && ok
                   && rooms == RemoveMember(old(rooms), c, id)
                   && sessions == old(sessions)[id := s.(roomCode := None, roomVisibility := None)]
                   && log == old(log) + Departure(c, id, s, rooms, sessions)
                                      + [Emission(ToSocket(id), RoomLeft(c))]
    {
      var s := sessions[id];
      if s.roomCode.None? || s.roomCode.value !in rooms {
        return false;
      }
      var c := s.roomCode.value;
      LeaveKeepsConsistent(rooms, sessions, id, c);
      rooms := RemoveMember(rooms, c, id);
      sessions := sessions[id := s.(roomCode := None, roomVisibility := None)];
      log := log + Departure(c, id, s, rooms, sessions) + [Emission(ToSocket(id), RoomLeft(c))];
      ok := true;
    }

    /** `disconnect`: the connection is gone; it leaves the room it held the
        way `leave_room` does, without the acknowledgement and the
        `room_left` event. */
    method Disconnect(id: SocketId)
      requires Valid() && id in sessions
      modifies this
      ensures Valid() && sessions == old(sessions) - {id}
      ensures var s := old(sessions[id]);
              s.roomCode.None? || s.roomCode.value !in old(rooms) ==>
                rooms == old(rooms) && log == old(log)
      ensures var s := old(sessions[id]);
              s.roomCode.Some? && s.roomCode.value in old(rooms) ==>
                && var c := s.roomCode.value;
                   && rooms == RemoveMember(old(rooms), c, id)
                   && log == old(log) + Departure(c, id, s, rooms, sessions)
    {
      var s := sessions[id];
      if s.roomCode.None? || s.roomCode.value !in rooms {
        IdleDisconnectKeepsConsistent(rooms, sessions, id);
        sessions := sessions - {id};
        return;
      }
      var c := s.roomCode.value;
      DisconnectKeepsConsistent(rooms, sessions, id, c);
      rooms := RemoveMember(rooms, c, id);
      sessions := sessions - {id};
      log := log + Departure(c, id, s, rooms, sessions);
    }

    /** `list_rooms`: the public listing, to the asking connection only. */
    method ListRooms(id: SocketId)
      modifies this`log
      ensures rooms == old(rooms) && sessions == old(sessions)
      ensures log == old(log) + [Emission(ToSocket(id), RoomsList(ListPublicRooms(rooms)))]
    {
      var listing := ListPublicRooms(rooms);
      log := log + [Emission(ToSocket(id), RoomsList(listing))];
    }
  }
}
