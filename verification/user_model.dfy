/** The users collection: each user's address book (contacts) and room list are
    array fields that the routes update with $addToSet and $pull. */
module UserModel {
  import opened Common
  import opened Seqs

  datatype User = User(id: Id, name: string, avatar: string, contacts: seq<Id>, rooms: seq<Id>)

  /** The projection `.select("_id name avatar")`. */
  datatype Profile = Profile(id: Id, name: string, avatar: string)

  function ProfileOf(u: User): Profile
  {
    Profile(u.id, u.name, u.avatar)
  }

  /** The two array fields of a user that the routes update. */
  datatype ArrayField = Contacts | Rooms

  function Field(u: User, field: ArrayField): seq<Id>
  {
    match field
    case Contacts => u.contacts
    case Rooms => u.rooms
  }

  /** The users table after `User.findByIdAndUpdate(id, { op: { field: value } })`:
      the user with that id (if any) has the update applied to the field. */
  function UpdateUser(rows: seq<User>, id: Id, field: ArrayField, op: ArrayUpdate<Id>): (r: seq<User>)
    ensures |r| == |rows|
    ensures forall i :: 0 <= i < |rows| && rows[i].id != id ==> r[i] == rows[i]
    ensures forall i :: 0 <= i < |rows| && rows[i].id == id ==>
      && r[i].id == id && ProfileOf(r[i]) == ProfileOf(rows[i])
      && Field(r[i], field) == Apply(Field(rows[i], field), op)
      && (field == Contacts ==> r[i].rooms == rows[i].rooms)
      && (field == Rooms ==> r[i].contacts == rows[i].contacts)
  {
    seq(|rows|, i requires 0 <= i < |rows| =>
      if rows[i].id != id then rows[i]
      else match field
        case Contacts => rows[i].(contacts := Apply(rows[i].contacts, op))
        case Rooms => rows[i].(rooms := Apply(rows[i].rooms, op)))
  }

  /** `User.findById(id).select("_id name avatar")`: the profile, or null when no user has that id. */
  function FindProfile(rows: seq<User>, id: Id): (r: Option<Profile>)
    ensures r.None? <==> forall u :: u in rows ==> u.id != id
    ensures r.Some? ==> r.value.id == id && exists u :: u in rows && ProfileOf(u) == r.value
  {
    if rows == [] then None
    else if rows[0].id == id then Some(ProfileOf(rows[0]))
    else
      assert rows == [rows[0]] + rows[1..];
      FindProfile(rows[1..], id)
  }

  /** No two users share an _id. */
  predicate DistinctUserIds(users: seq<User>)
  {
    forall i, j :: 0 <= i < j < |users| ==> users[i].id != users[j].id
  }

  /** The consistency the users table keeps: distinct ids and duplicate-free array fields. */
  predicate UsersValid(rows: seq<User>)
  {
    && DistinctUserIds(rows)
    && (forall i :: 0 <= i < |rows| ==> NoDups(rows[i].contacts) && NoDups(rows[i].rooms))
  }

  /** No user lists itself as a contact. */
  predicate NoSelfContacts(rows: seq<User>)
  {
    forall i :: 0 <= i < |rows| ==> rows[i].id !in rows[i].contacts
  }

  lemma UpdateUserValid(rows: seq<User>, id: Id, field: ArrayField, op: ArrayUpdate<Id>)
    requires UsersValid(rows)
    ensures UsersValid(UpdateUser(rows, id, field, op))
  {
    var r := UpdateUser(rows, id, field, op);
    forall i | 0 <= i < |rows| ensures NoDups(r[i].contacts) && NoDups(r[i].rooms) {
      if rows[i].id == id {
        assert Field(r[i], field) == Apply(Field(rows[i], field), op);
      }
    }
  }

  /** The users collection. */
  class UserCollection {
    var rows: seq<User>

    ghost predicate Valid()
      reads this
    {
      UsersValid(rows)
    }

    constructor (initial: seq<User>)
      requires UsersValid(initial)
      ensures Valid() && rows == initial
    {
      rows := initial;
    }

    /** `User.findByIdAndUpdate(id, { op: { field: value } })`; a missing id changes nothing. */
    method Update(id: Id, field: ArrayField, op: ArrayUpdate<Id>)
      requires Valid()
      modifies this
      ensures Valid()
      ensures rows == UpdateUser(old(rows), id, field, op)
    {
      UpdateUserValid(rows, id, field, op);
      rows := UpdateUser(rows, id, field, op);
    }
  }
}
