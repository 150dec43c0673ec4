/** The `/api/rooms` route: POST creates a room under a fresh random six-character
    code and adds it to the creator's room list. Every value `Math.random()`
    returns is taken from `draws`, in order, each in [0, 1). */
module RoomsRoute {
  import opened Common
  import opened Seqs
  import opened RoomModel
  import opened UserModel

  /** The 36 symbols a code is drawn from. */
  const Alphabet: string := "ABCDEFGHIJKLMNOPQRSTUVWXYZ0123456789"

  /** The length of a room code. */
  const CodeLength: nat := 6

  /** A random draw in [0, 1) is valid. */
  predicate UnitInterval(draws: seq<real>)
  {
    forall i :: 0 <= i < |draws| ==> 0.0 <= draws[i] < 1.0
  }

  /** `Math.floor(x * chars.length)` */
  function Pick(x: real): int
  {
    (x * |Alphabet| as real).Floor
  }

  /** `s.charAt(i)`: the one-character string at i, or "" when i is out of range. */
  function CharAt(s: string, i: int): string
  {
    if 0 <= i < |s| then [s[i]] else ""
  }

  /** The code that `generateCode` builds from the given draws. */
  function CodeFrom(draws: seq<real>): string
  {
    if draws == [] then ""
    else CodeFrom(draws[..|draws| - 1]) + CharAt(Alphabet, Pick(draws[|draws| - 1]))
  }

  /** A draw in [0, 1) always picks an index inside the alphabet, so every draw
      contributes exactly one character of the alphabet. */
  lemma {:induction false} CodeFromShape(draws: seq<real>)
    requires UnitInterval(draws)
    ensures |CodeFrom(draws)| == |draws|
    ensures forall i :: 0 <= i < |draws| ==> CodeFrom(draws)[i] in Alphabet
  {
    if draws != [] {
      var init := draws[..|draws| - 1];
      CodeFromShape(init);
      var x := draws[|draws| - 1];
      assert 0.0 <= x * 36.0 < 36.0;
      assert 0 <= Pick(x) < |Alphabet|;
    }
  }

  /** `generateCode(length)`: one draw per character. */
  method GenerateCode(length: nat, draws: seq<real>) returns (result: string)
    requires |draws| == length && UnitInterval(draws)
    ensures result == CodeFrom(draws)
    ensures |result| == length
    ensures forall i :: 0 <= i < |result| ==> result[i] in Alphabet
  {
    result := "";
    var i := 0;
    while i < length
      invariant 0 <= i <= length
      invariant result == CodeFrom(draws[..i])
    {
      assert draws[..i + 1][..i] == draws[..i];
      result := result + CharAt(Alphabet, Pick(draws[i]));
      i := i + 1;
    }
    assert draws[..length] == draws;
    CodeFromShape(draws);
  }

  /** The code the k-th call of `generateCode(6)` yields (counting from 0). */
  function AttemptCode(draws: seq<real>, k: nat): string
    requires CodeLength * k + CodeLength <= |draws|
  {
    CodeFrom(draws[CodeLength * k .. CodeLength * k + CodeLength])
  }

  /** The draws eventually give a code no room uses; otherwise the retry loop never ends. */
  ghost predicate EventuallyFresh(rows: seq<Room>, draws: seq<real>)
  {
    exists k: nat :: CodeLength * k + CodeLength <= |draws| && !CodeInUse(rows, AttemptCode(draws, k))
  }

  /** The retry loop of POST /api/rooms: draw codes until `Room.findOne({ code })`
      finds no room. The code returned is the first attempt no room uses. */
  method UniqueCode(rooms: RoomCollection, draws: seq<real>) returns (code: string)
    requires UnitInterval(draws)
    requires EventuallyFresh(rooms.rows, draws)
    ensures !CodeInUse(rooms.rows, code)
    ensures |code| == CodeLength && forall i :: 0 <= i < |code| ==> code[i] in Alphabet
    ensures exists k: nat ::
      && CodeLength * k + CodeLength <= |draws|
      && code == AttemptCode(draws, k)
      && forall j: nat :: j < k ==> CodeInUse(rooms.rows, AttemptCode(draws, j))
  {
    ghost var freeAttempt: nat :|
      CodeLength * freeAttempt + CodeLength <= |draws| && !CodeInUse(rooms.rows, AttemptCode(draws, freeAttempt));
    var attempt: nat := 0;
    code := GenerateCode(CodeLength, draws[0..CodeLength]);
    var existing := rooms.FindOne(code);
    while existing.Some?
      invariant attempt <= freeAttempt
      invariant code == AttemptCode(draws, attempt)
      invariant |code| == CodeLength && forall i :: 0 <= i < |code| ==> code[i] in Alphabet
      invariant existing.Some? <==> CodeInUse(rooms.rows, code)
      invariant forall j: nat :: j < attempt ==> CodeInUse(rooms.rows, AttemptCode(draws, j))
      decreases freeAttempt - attempt
    {
      assert CodeInUse(rooms.rows, AttemptCode(draws, attempt));
      assert attempt != freeAttempt;
      ghost var previous := attempt;
      attempt := attempt + 1;
      forall j: nat | j < attempt ensures CodeInUse(rooms.rows, AttemptCode(draws, j)) {
        if j == previous {
          assert code == AttemptCode(draws, j);
        }
      }
      code := GenerateCode(CodeLength, draws[CodeLength * attempt .. CodeLength * attempt + CodeLength]);
      existing := rooms.FindOne(code);
    }
  }

  /** POST /api/rooms with body { userId }. The store's fresh _id for the room is newRoomId. */
  method Create(rooms: RoomCollection, users: UserCollection, userId: Option<string>,
                draws: seq<real>, newRoomId: Id)
    returns (resp: Response<Room>)
    requires rooms.Valid() && users.Valid()
    requires UnitInterval(draws)
    requires forall r :: r in rooms.rows ==> r.id != newRoomId
    requires !Falsy(userId) ==> EventuallyFresh(rooms.rows, draws)
    modifies rooms, users
    ensures rooms.Valid() && users.Valid()
    ensures Falsy(userId) ==>
      resp == BadRequest("Missing required fields") &&
      rooms.rows == old(rooms.rows) && users.rows == old(users.rows)
    ensures !Falsy(userId) ==>
      && resp.Ok?
      && var room := resp.body;
      && room.id == newRoomId
      && |room.code| == CodeLength
      && (forall i :: 0 <= i < |room.code| ==> room.code[i] in Alphabet)
      && !CodeInUse(old(rooms.rows), room.code)
      && (exists k: nat ::
            && CodeLength * k + CodeLength <= |draws|
            && room.code == AttemptCode(draws, k)
            && forall j: nat :: j < k ==> CodeInUse(old(rooms.rows), AttemptCode(draws, j)))
      && room.participants == [userId.value]
      && room.name == "Room " + room.code
      && rooms.rows == old(rooms.rows) + [room]
      && users.rows == UpdateUser(old(users.rows), userId.value, Rooms, AddToSetOf(newRoomId))
    ensures WithinCap(old(rooms.rows)) ==> WithinCap(rooms.rows)
  {
    if Falsy(userId) {
      return BadRequest("Missing required fields");
    }
    var code := UniqueCode(rooms, draws);
    var room := Room(newRoomId, code, [userId.value], "Room " + code);
    rooms.Create(room);
    users.Update(userId.value, Rooms, AddToSetOf(newRoomId));
    return Ok(room);
  }
}
