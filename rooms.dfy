/**
 * The room registry's values: rooms, room codes and their allocation, the
 * public room listing, and the roster of a room.
 */
module Rooms {
  import opened Wrappers
  import opened Text

  type SocketId = string
  type Code = string

  datatype Visibility = Public | Private

  /** A live room. `users` is the member set; JavaScript's `Set` keeps
      insertion order, so it is a sequence without repetitions here. */
  datatype Room = Room(users: seq<SocketId>, visibility: Visibility, createdAt: int)

  /** One entry of the `rooms_list` event. */
  datatype PublicRoom = PublicRoom(code: Code, usersCount: nat, createdAt: int)

  /** What the server knows of a connection once it is authenticated. */
  datatype Session = Session(
    username: string,
    profilePic: Option<string>,
    roomCode: Option<Code>,
    roomVisibility: Option<Visibility>)

  /** One entry of the `room_users` event. */
  datatype UserInfo = UserInfo(id: SocketId, username: string, profilePic: Option<string>)

  predicate Distinct<T(==)>(s: seq<T>) {
    forall i, j :: 0 <= i < j < |s| ==> s[i] != s[j]
  }

  /** The bounds of `crypto.randomInt(1000, 10000)`. */
  const MinCode: nat := 1000
  const MaxCode: nat := 9999

  /** A value of `crypto.randomInt(1000, 10000)`. */
  predicate IsDraw(n: int) {
    MinCode <= n <= MaxCode
  }

  /** `genCode`: the decimal text of a draw. */
  function CodeOf(n: nat): Code
    requires IsDraw(n)
  {
    DecimalString(n)
  }

  /** A string `genCode` can produce. */
  ghost predicate IsRoomCode(c: Code) {
    exists n: nat :: IsDraw(n) && c == CodeOf(n)
  }

  /** Room codes are four decimal digits, and distinct draws give distinct codes. */
  lemma RoomCodeShape(m: nat, n: nat)
    requires IsDraw(m) && IsDraw(n)
    ensures |CodeOf(n)| == 4 && forall i :: 0 <= i < 4 ==> IsDigit(CodeOf(n)[i])
    ensures CodeOf(m) == CodeOf(n) <==> m == n
  {
    DecimalStringFourDigits(n);
    if m != n {
      DecimalStringInjective(m, n);
    }
  }

  /** Some draw of the stream names a code that no live room holds. */
  ghost predicate HasFreeDraw(rooms: map<Code, Room>, draws: seq<nat>)
    requires forall i :: 0 <= i < |draws| ==> IsDraw(draws[i])
  {
    exists k :: 0 <= k < |draws| && CodeOf(draws[k]) !in rooms
  }

  /** `genUniqueCode`: draws codes from the random stream `draws` until one
      is not a key of `rooms`, and reports how many draws were consumed. */
  method GenUniqueCode(rooms: map<Code, Room>, draws: seq<nat>) returns (code: Code, used: nat)
    requires forall i :: 0 <= i < |draws| ==> IsDraw(draws[i])
    requires HasFreeDraw(rooms, draws)
    ensures 0 < used <= |draws| && code == CodeOf(draws[used - 1])
    ensures code !in rooms && IsRoomCode(code)
    ensures forall j :: 0 <= j < used - 1 ==> CodeOf(draws[j]) in rooms
  {
    var i := 0;
    code := CodeOf(draws[0]);
    while code in rooms
      invariant 0 <= i < |draws| && code == CodeOf(draws[i])
      invariant forall j :: 0 <= j < i ==> CodeOf(draws[j]) in rooms
      invariant exists k :: i <= k < |draws| && CodeOf(draws[k]) !in rooms
      decreases |draws| - i
    {
      i := i + 1;
      code := CodeOf(draws[i]);
    }
    used := i + 1;
  }

  /** The keys of `rooms` in the order `Object.entries` lists them. Every key
      is an integer-like string, and JavaScript enumerates such keys in
      ascending numeric order, so this scans the codes from `n` to 9999. */
  function CodesFrom(rooms: map<Code, Room>, n: nat): (cs: seq<Code>)
    requires MinCode <= n
    decreases MaxCode + 1 - n
    ensures forall c :: c in cs <==> c in rooms && exists m: nat :: n <= m <= MaxCode && c == CodeOf(m)
    ensures Distinct(cs)
  {
    if n > MaxCode then []
    else
      var rest := CodesFrom(rooms, n + 1);
      if CodeOf(n) in rooms then
        assert CodeOf(n) !in rest by {
          forall m: nat | n + 1 <= m <= MaxCode
            ensures CodeOf(n) != CodeOf(m)
          {
            RoomCodeShape(n, m);
          }
        }
        [CodeOf(n)] + rest
      else rest
  }

  /** `.filter(public).map(...)` over the entries with keys `cs`. */
  function PublicEntries(rooms: map<Code, Room>, cs: seq<Code>): (ps: seq<PublicRoom>)
    requires forall c :: c in cs ==> c in rooms
    ensures forall p :: p in ps <==>
              p.code in cs && rooms[p.code].visibility == Public
              && p.usersCount == |rooms[p.code].users| && p.createdAt == rooms[p.code].createdAt
    ensures Distinct(cs) ==> DistinctCodes(ps)
  {
    if cs == [] then []
    else
      var c := cs[0];
      var rest := PublicEntries(rooms, cs[1..]);
      if rooms[c].visibility == Public then
        [PublicRoom(c, |rooms[c].users|, rooms[c].createdAt)] + rest
      else rest
  }

  predicate DistinctCodes(ps: seq<PublicRoom>) {
    forall i, j :: 0 <= i < j < |ps| ==> ps[i].code != ps[j].code
  }

  /** Sorted by `usersCount`, largest first. */
  predicate ByCountDescending(ps: seq<PublicRoom>) {
    forall i, j :: 0 <= i < j < |ps| ==> ps[i].usersCount >= ps[j].usersCount
  }

  lemma ConsByCount(x: PublicRoom, ps: seq<PublicRoom>)
    requires ByCountDescending(ps)
    requires ps == [] || x.usersCount >= ps[0].usersCount
    ensures ByCountDescending([x] + ps)
  {
  }

  /** Puts `p` before the first entry whose count is not larger than its own. */
  function InsertByCount(p: PublicRoom, ps: seq<PublicRoom>): (r: seq<PublicRoom>)
    requires ByCountDescending(ps)
    ensures ByCountDescending(r)
    ensures multiset(r) == multiset(ps) + multiset{p}
  {
    if ps == [] || p.usersCount >= ps[0].usersCount then
      ConsByCount(p, ps);
      [p] + ps
    else
      assert ps == [ps[0]] + ps[1..];
      var rest := InsertByCount(p, ps[1..]);
      forall k | 0 <= k < |rest|
        ensures ps[0].usersCount >= rest[k].usersCount
      {
        assert rest[k] in multiset(rest);
        assert rest[k] == p || rest[k] in ps[1..];
      }
      ConsByCount(ps[0], rest);
      [ps[0]] + rest
  }

  lemma {:induction false} InsertByCountKeepsCodesDistinct(p: PublicRoom, ps: seq<PublicRoom>)
    requires ByCountDescending(ps) && DistinctCodes(ps)
    requires forall q :: q in ps ==> q.code != p.code
    ensures DistinctCodes(InsertByCount(p, ps))
  {
    if ps != [] && p.usersCount < ps[0].usersCount {
      var tail := ps[1..];
      InsertByCountKeepsCodesDistinct(p, tail);
      var rest := InsertByCount(p, tail);
      forall q | q in rest
        ensures q.code != ps[0].code
      {
        assert q in multiset(rest);
        assert q == p || q in multiset(tail);
      }
      assert InsertByCount(p, ps) == [ps[0]] + rest;
      ConsDistinct(ps[0], rest);
    }
  }

  lemma ConsDistinct(x: PublicRoom, ps: seq<PublicRoom>)
    requires DistinctCodes(ps)
    requires forall q :: q in ps ==> q.code != x.code
    ensures DistinctCodes([x] + ps)
  {
    forall i, j | 0 <= i < j < |[x] + ps|
      ensures ([x] + ps)[i].code != ([x] + ps)[j].code
    {
      if i == 0 {
        assert ([x] + ps)[j] == ps[j - 1];
      }
    }
  }

  /** `.sort((a, b) => b.usersCount - a.usersCount)`: a stable sort, largest
      count first, equal counts kept in their original order. */
  function SortByCount(ps: seq<PublicRoom>): (r: seq<PublicRoom>)
    ensures ByCountDescending(r)
    ensures multiset(r) == multiset(ps)
  {
    if ps == [] then []
    else
      assert ps == [ps[0]] + ps[1..];
      InsertByCount(ps[0], SortByCount(ps[1..]))
  }

  lemma {:induction false} SortByCountKeepsCodesDistinct(ps: seq<PublicRoom>)
    requires DistinctCodes(ps)
    ensures DistinctCodes(SortByCount(ps))
  {
    if ps != [] {
      var tail := ps[1..];
      SortByCountKeepsCodesDistinct(tail);
      var rest := SortByCount(tail);
      forall q | q in rest
        ensures q.code != ps[0].code
      {
        assert q in multiset(rest);
        assert q in tail;
      }
      InsertByCountKeepsCodesDistinct(ps[0], rest);
    }
  }

  /** `listPublicRooms`. */
  function ListPublicRooms(rooms: map<Code, Room>): seq<PublicRoom> {
    SortByCount(PublicEntries(rooms, CodesFrom(rooms, MinCode)))
  }

  /** The listing holds exactly the public rooms, once each, with their member
      counts and creation times, largest room first. */
  lemma ListPublicRoomsSpec(rooms: map<Code, Room>)
    requires forall c :: c in rooms ==> IsRoomCode(c)
    ensures var ps := ListPublicRooms(rooms);
            && ByCountDescending(ps)
            && DistinctCodes(ps)
            && (forall p :: p in ps ==>
                  p.code in rooms && rooms[p.code].visibility == Public
                  && p.usersCount == |rooms[p.code].users| && p.createdAt == rooms[p.code].createdAt)
            && (forall c :: c in rooms && rooms[c].visibility == Public ==>
                  PublicRoom(c, |rooms[c].users|, rooms[c].createdAt) in ps)
  {
    var cs := CodesFrom(rooms, MinCode);
    var entries := PublicEntries(rooms, cs);
    var ps := ListPublicRooms(rooms);
    SortByCountKeepsCodesDistinct(entries);
    forall p | p in ps
      ensures p in entries
    {
      assert p in multiset(ps);
    }
    forall c | c in rooms && rooms[c].visibility == Public
      ensures PublicRoom(c, |rooms[c].users|, rooms[c].createdAt) in ps
    {
      var n: nat :| IsDraw(n) && c == CodeOf(n);
      assert c in cs;
      assert PublicRoom(c, |rooms[c].users|, rooms[c].createdAt) in multiset(entries);
    }
  }

  /** `getRoomUsers`: the members whose connection is known and has a user
      name, in membership order. */
  function RoomUsers(users: seq<SocketId>, sessions: map<SocketId, Session>): (us: seq<UserInfo>)
    ensures |us| <= |users|
    ensures forall u :: u in us ==> u.id in users && u.id in sessions
                                    && u.username == sessions[u.id].username != ""
                                    && u.profilePic == sessions[u.id].profilePic
  {
    if users == [] then []
    else
      var id := users[0];
      var rest := RoomUsers(users[1..], sessions);
      if id in sessions && sessions[id].username != "" then
        [UserInfo(id, sessions[id].username, sessions[id].profilePic)] + rest
      else rest
  }

  /** When every member is a named connection, the roster lists every member,
      in order, so `room_user_count` is the size of the member set. */
  lemma {:induction false} RoomUsersComplete(users: seq<SocketId>, sessions: map<SocketId, Session>)
    requires forall id :: id in users ==> id in sessions && sessions[id].username != ""
    ensures |RoomUsers(users, sessions)| == |users|
    ensures forall i :: 0 <= i < |users| ==> RoomUsers(users, sessions)[i].id == users[i]
  {
    if users != [] {
      RoomUsersComplete(users[1..], sessions);
    }
  }

  /** `Set.delete`: the members other than `id`, in their order. */
  function Without(users: seq<SocketId>, id: SocketId): (r: seq<SocketId>)
    ensures forall x :: x in r <==> x in users && x != id
    ensures Distinct(users) ==> Distinct(r)
    ensures id !in users ==> r == users
    ensures Distinct(users) && id in users ==> |r| == |users| - 1
  {
    if users == [] then []
    else
      var rest := Without(users[1..], id);
      assert users == [users[0]] + users[1..];
      assert Distinct(users) ==> users[0] !in users[1..];
      if users[0] == id then rest else [users[0]] + rest
  }

  /** Removing from a concatenation removes from each part, so the other
      members keep their order. */
  lemma {:induction false} WithoutConcat(x: seq<SocketId>, y: seq<SocketId>, id: SocketId)
    ensures Without(x + y, id) == Without(x, id) + Without(y, id)
  {
    if x == [] {
      assert x + y == y;
    } else {
      assert (x + y)[1..] == x[1..] + y;
      WithoutConcat(x[1..], y, id);
    }
  }

  /** Removing a value that occurs only at slot `k` drops that slot. */
  lemma WithoutSlot(before: seq<SocketId>, id: SocketId, after: seq<SocketId>)
    requires id !in before && id !in after
    ensures Without(before + [id] + after, id) == before + after
  {
    assert Without([id], id) == Without([], id) == [];
    WithoutConcat(before + [id], after, id);
    WithoutConcat(before, [id], id);
  }

  /** In a list without repeats, removing a member drops exactly its one
      slot: the members before it and after it stay, in order. */
  lemma WithoutRemovesOne(users: seq<SocketId>, id: SocketId)
    requires Distinct(users) && id in users
    ensures exists k :: 0 <= k < |users| && users[k] == id && Without(users, id) == users[..k] + users[k + 1..]
  {
    var k :| 0 <= k < |users| && users[k] == id;
    assert users == users[..k] + [id] + users[k + 1..];
    WithoutSlot(users[..k], id, users[k + 1..]);
  }
}
