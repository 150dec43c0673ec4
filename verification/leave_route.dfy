/** The `/api/rooms/leave` route: POST removes the user from the room and the room
    from the user, with no membership or existence check. */
module LeaveRoute {
  import opened Common
  import opened Seqs
  import opened RoomModel
  import opened UserModel

  /** POST /api/rooms/leave with body { userId, roomId }; the body of a success is `{ success: true }`. */
  method Leave(rooms: RoomCollection, users: UserCollection, userId: Option<string>, roomId: Option<string>)
    returns (resp: Response<bool>)
    requires rooms.Valid() && users.Valid()
    modifies rooms, users
    ensures rooms.Valid() && users.Valid()
    ensures Falsy(userId) || Falsy(roomId) ==>
      resp == BadRequest("Missing required fields") &&
      rooms.rows == old(rooms.rows) && users.rows == old(users.rows)
    ensures !Falsy(userId) && !Falsy(roomId) ==>
      resp == Ok(true) &&
      rooms.rows == UpdateParticipants(old(rooms.rows), roomId.value, PullOf(userId.value)) &&
      users.rows == UpdateUser(old(users.rows), userId.value, Rooms, PullOf(roomId.value))
    ensures WithinCap(old(rooms.rows)) ==> WithinCap(rooms.rows)
  {
    if Falsy(userId) || Falsy(roomId) {
      return BadRequest("Missing required fields");
    }
    rooms.Update(roomId.value, PullOf(userId.value));
    users.Update(userId.value, Rooms, PullOf(roomId.value));
    return Ok(true);
  }

  /** Leaving removes the user from the named room, keeps the other participants
      in their order, and leaves every other room as it was. Leaving a room one is
      not in changes nothing. */
  lemma {:induction false} LeaveEffect(rows: seq<Room>, roomId: Id, userId: Id)
    ensures var after := UpdateParticipants(rows, roomId, PullOf(userId));
      && |after| == |rows|
      && (forall i :: 0 <= i < |rows| ==> userId !in after[i].participants || rows[i].id != roomId)
      && (forall i :: 0 <= i < |rows| && rows[i].id == roomId ==>
            forall a, b :: rows[i].participants == a + b ==> after[i].participants == Pull(a, userId) + Pull(b, userId))
      && (forall i :: 0 <= i < |rows| && (rows[i].id != roomId || userId !in rows[i].participants) ==> after[i] == rows[i])
  {
    var after := UpdateParticipants(rows, roomId, PullOf(userId));
    forall i, a, b | 0 <= i < |rows| && rows[i].id == roomId && rows[i].participants == a + b
      ensures after[i].participants == Pull(a, userId) + Pull(b, userId)
    {
      PullConcat(a, b, userId);
    }
  }

  /** Leaving also removes every occurrence of the room from the user's list and
      touches no other user. */
  lemma LeaveUserEffect(rows: seq<User>, userId: Id, roomId: Id)
    ensures var after := UpdateUser(rows, userId, Rooms, PullOf(roomId));
      && |after| == |rows|
      && (forall i :: 0 <= i < |rows| && rows[i].id == userId ==>
            roomId !in after[i].rooms && after[i].contacts == rows[i].contacts)
      && (forall i :: 0 <= i < |rows| && rows[i].id != userId ==> after[i] == rows[i])
  {
    var after := UpdateUser(rows, userId, Rooms, PullOf(roomId));
    forall i | 0 <= i < |rows| && rows[i].id == userId ensures roomId !in after[i].rooms {
      assert Field(after[i], Rooms) == Apply(Field(rows[i], Rooms), PullOf(roomId));
    }
  }
}
