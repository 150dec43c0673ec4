/** The rooms collection: a room has a unique six-character join code and a
    participants array updated with $addToSet and $pull. */
module RoomModel {
  import opened Common
  import opened Seqs

  datatype Room = Room(id: Id, code: string, participants: seq<Id>, name: string)

  /** The most participants a room admits through the join route. */
  const MaxParticipants: nat := 2

  /** Some room already uses this code. */
  predicate CodeInUse(rows: seq<Room>, code: string)
  {
    exists i :: 0 <= i < |rows| && rows[i].code == code
  }

  /** `Room.findOne({ code })`: the first room with that code, or null. */
  function FindByCode(rows: seq<Room>, code: string): (r: Option<Room>)
    ensures r.None? <==> !CodeInUse(rows, code)
    ensures r.Some? ==> r.value in rows && r.value.code == code
  {
    if rows == [] then None
    else if rows[0].code == code then Some(rows[0])
    else
      var r := FindByCode(rows[1..], code);
      assert CodeInUse(rows, code) ==> CodeInUse(rows[1..], code) by {
        if CodeInUse(rows, code) {
          var i :| 0 <= i < |rows| && rows[i].code == code;
          assert rows[1..][i - 1].code == code;
        }
      }
      assert CodeInUse(rows[1..], code) ==> CodeInUse(rows, code) by {
        if CodeInUse(rows[1..], code) {
          var i :| 0 <= i < |rows[1..]| && rows[1..][i].code == code;
          assert rows[i + 1].code == code;
        }
      }
      r
  }

  /** The rooms table after `Room.findByIdAndUpdate(id, { op: { participants: value } })`:
      only the room with that id (if any) changes, and only its participants. */
  function UpdateParticipants(rows: seq<Room>, id: Id, op: ArrayUpdate<Id>): (r: seq<Room>)
    ensures |r| == |rows|
    ensures forall i :: 0 <= i < |rows| && rows[i].id != id ==> r[i] == rows[i]
    ensures forall i :: 0 <= i < |rows| && rows[i].id == id ==>
      r[i] == rows[i].(participants := Apply(rows[i].participants, op))
  {
    seq(|rows|, i requires 0 <= i < |rows| =>
      if rows[i].id == id then rows[i].(participants := Apply(rows[i].participants, op)) else rows[i])
  }

  /** The consistency the rooms table keeps: distinct ids, distinct codes, and
      duplicate-free participant lists. */
  predicate RoomsValid(rows: seq<Room>)
  {
    && (forall i, j :: 0 <= i < j < |rows| ==> rows[i].id != rows[j].id && rows[i].code != rows[j].code)
    && (forall i :: 0 <= i < |rows| ==> NoDups(rows[i].participants))
  }

  /** Every room has at most two participants. */
  predicate WithinCap(rows: seq<Room>)
  {
    forall i :: 0 <= i < |rows| ==> |rows[i].participants| <= MaxParticipants
  }

  lemma UpdateParticipantsValid(rows: seq<Room>, id: Id, op: ArrayUpdate<Id>)
    requires RoomsValid(rows)
    ensures RoomsValid(UpdateParticipants(rows, id, op))
  {
  }

  /** The rooms collection. */
  class RoomCollection {
    var rows: seq<Room>

    ghost predicate Valid()
      reads this
    {
      RoomsValid(rows)
    }

    constructor (initial: seq<Room>)
      requires RoomsValid(initial)
      ensures Valid() && rows == initial
    {
      rows := initial;
    }

    /** `Room.findOne({ code })` */
    function FindOne(code: string): (r: Option<Room>)
      reads this
      ensures r.None? <==> !CodeInUse(rows, code)
      ensures r.Some? ==> r.value in rows && r.value.code == code
    {
      FindByCode(rows, code)
    }

    /** `Room.create(room)` with a fresh _id; the code index is unique. */
    method Create(room: Room)
      requires Valid()
      requires forall r :: r in rows ==> r.id != room.id
      requires !CodeInUse(rows, room.code)
      requires NoDups(room.participants)
      modifies this
      ensures Valid()
      ensures rows == old(rows) + [room]
    {
      rows := rows + [room];
    }

    /** `Room.findByIdAndUpdate(id, { op: { participants: value } })`; a missing id changes nothing. */
    method Update(id: Id, op: ArrayUpdate<Id>)
      requires Valid()
      modifies this
      ensures Valid()
      ensures rows == UpdateParticipants(old(rows), id, op)
    {
      UpdateParticipantsValid(rows, id, op);
      rows := UpdateParticipants(rows, id, op);
    }
  }
}
