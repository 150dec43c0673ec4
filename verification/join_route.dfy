/** The `/api/rooms/join` route: POST joins a room by its code, admitting at most
    two participants. */
module JoinRoute {
  import opened Common
  import opened Seqs
  import opened RoomModel
  import opened UserModel

  /** The admission rule: an existing participant always passes; a newcomer only
      while the room has fewer than two participants. */
  predicate Admits(room: Room, userId: Id)
  {
    userId in room.participants || |room.participants| < MaxParticipants
  }

  /** POST /api/rooms/join with body { userId, code }. The response is the room as
      read before the update. */
  method Join(rooms: RoomCollection, users: UserCollection, userId: Option<string>, code: Option<string>)
    returns (resp: Response<Room>)
    requires rooms.Valid() && users.Valid()
    modifies rooms, users
    ensures rooms.Valid() && users.Valid()
    ensures Falsy(userId) || Falsy(code) ==>
      resp == BadRequest("Missing required fields") &&
      rooms.rows == old(rooms.rows) && users.rows == old(users.rows)
    ensures !Falsy(userId) && !Falsy(code) && !CodeInUse(old(rooms.rows), code.value) ==>
      resp == NotFound("Room not found") &&
      rooms.rows == old(rooms.rows) && users.rows == old(users.rows)
    ensures !Falsy(userId) && !Falsy(code) && CodeInUse(old(rooms.rows), code.value) ==>
      var room := FindByCode(old(rooms.rows), code.value).value;
      if !Admits(room, userId.value) then
        resp == Forbidden("Room is full (Max 2 participants)") &&
        rooms.rows == old(rooms.rows) && users.rows == old(users.rows)
      else
        resp == Ok(room) &&
        rooms.rows == UpdateParticipants(old(rooms.rows), room.id, AddToSetOf(userId.value)) &&
        users.rows == UpdateUser(old(users.rows), userId.value, Rooms, AddToSetOf(room.id))
    ensures WithinCap(old(rooms.rows)) ==> WithinCap(rooms.rows)
  {
    if Falsy(userId) || Falsy(code) {
      return BadRequest("Missing required fields");
    }
    var found := rooms.FindOne(code.value);
    if found.None? {
      return NotFound("Room not found");
    }
    var room := found.value;
    var isParticipant := userId.value in room.participants;
    if !isParticipant && |room.participants| >= MaxParticipants {
      return Forbidden("Room is full (Max 2 participants)");
    }
    JoinKeepsCap(rooms.rows, room, userId.value);
    rooms.Update(room.id, AddToSetOf(userId.value));
    users.Update(userId.value, Rooms, AddToSetOf(room.id));
    return Ok(room);
  }

  /** A join the rule admits keeps every room within two participants. */
  lemma JoinKeepsCap(rows: seq<Room>, room: Room, userId: Id)
    requires RoomsValid(rows) && room in rows && Admits(room, userId)
    ensures WithinCap(rows) ==> WithinCap(UpdateParticipants(rows, room.id, AddToSetOf(userId)))
  {
    var r := UpdateParticipants(rows, room.id, AddToSetOf(userId));
    forall i | 0 <= i < |rows| && rows[i].id == room.id ensures rows[i] == room {
      var k :| 0 <= k < |rows| && rows[k] == room;
      assert i == k;
    }
  }

  /** After an admitted join the user is listed in the room exactly once, the room
      stays within two participants if it was, re-joining as a participant changes
      nothing, and every other room is unchanged. */
  lemma JoinEffect(rows: seq<Room>, room: Room, userId: Id)
    requires RoomsValid(rows) && room in rows && Admits(room, userId)
    ensures var after := UpdateParticipants(rows, room.id, AddToSetOf(userId));
      && (forall i :: 0 <= i < |rows| && rows[i].id != room.id ==> after[i] == rows[i])
      && (forall i :: 0 <= i < |rows| && rows[i].id == room.id ==>
            && multiset(after[i].participants)[userId] == 1
            && (|room.participants| <= MaxParticipants ==> |after[i].participants| <= MaxParticipants))
      && (userId in room.participants ==> after == rows)
  {
    var after := UpdateParticipants(rows, room.id, AddToSetOf(userId));
    forall i | 0 <= i < |rows| && rows[i].id == room.id
      ensures rows[i] == room && multiset(after[i].participants)[userId] == 1
    {
      var k :| 0 <= k < |rows| && rows[k] == room;
      assert i == k;
      AddToSetOnce(room.participants, userId);
    }
    if userId in room.participants {
      assert forall i :: 0 <= i < |rows| ==> after[i] == rows[i];
    }
  }
}
